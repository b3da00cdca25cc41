# LootingBots: loot target selection and container repacking, modelled in Dafny

This project models the two decision components of the LootingBots mod:

- **Container repacking and grid prioritisation** (`LootingBots/utils/LootUtils.cs`).
  `SortContainer` takes every item out of a container's grids. It re-inserts the items
  largest first, each into the first grid (smallest area first) that accepts it. When
  an item fits nowhere, it rolls the container back and reports that item.
  `GetPrioritizedGridsForLoot` orders a bot's rig, pocket, backpack and secure-container
  grids by the item's category. It holds back one small rig grid for reloaded magazines.
  `FindGridToPickUp` takes the first of those grids with free space.
- **Loot target selection** (`LootingBots/logics/FindLootLogic.cs`). `FindLootable`
  sorts the hits of the overlap query by straight-line distance. It commits the first
  hit that is eligible (container, loose item or corpse) and within range. The commit
  goes to the bot's looting brain and to the active-loot cache.

Everything is pure. Grids, items, colliders and the brain are immutable datatypes.
Engine queries are oracles:

- `grid.Add` is a predicate `fits(grid, item)`; a successful add appends exactly that item.
- `FindFreeSpace` is a function `findFreeSpace(grid, item): Option<Location>`.
- The overlap query is the collider buffer plus the hit count.
- The two NavMesh snaps and the path length are fields of each collider.
- The ignore list and the value threshold are predicates in the scan context.

Modules: `Wrappers` (Option), `Sequences` (key-ordered insertion sort standing in for
`List.Sort`, sums, and removal of the first match standing in for `List.Remove`), `Inventory` (grid arithmetic, sorting, reservation,
prioritisation, pickup), `Packing` (`SortContainer`), `FindLoot` (`FindLootLogic`).

## Behaviour kept as the code has it

- **Range threshold.** Each detection distance is squared (FindLootLogic.cs:24-35). The
  square is then compared with an unsquared path length. With a container distance of
  40, a container 50 units away by path is in range, because 50 <= 1600. Reading the
  setting as a maximum path length would reject it. `SquaredThresholdQuirk` states the
  consequence.
- **Range type versus branch.** The threshold is chosen from the components present
  (container, else loose item, else corpse). The committed branch is chosen from
  eligibility (container, else corpse, else item). `RangeTypeAndBranchCanDisagree`
  exhibits a collider range-checked as a container and committed as a corpse.
- **Unreachable destinations.** A failed second snap falls back to the first snap
  point. Only a destination that compares equal to the zero vector is rejected, and
  Unity's `Vector3 ==` is approximate. It holds when the squared magnitude is below
  kEpsilon² = 1e-10, so any point within 1e-5 of the origin counts (`NearZero`). A
  genuine NavMesh point at or next to the origin is therefore rejected too
  (`OriginDestinationIsRejected`, `PointNearOriginIsRejected`).
- **Claims.** The scan never reads the active-loot cache before choosing; it only
  writes to it. `IsLootIgnored` is an arbitrary predicate here.
- **Reserved slot count.** `Update` compares free grid spaces with
  `LootUtils.RESERVED_SLOT_COUNT`. `LootUtils.cs` defines only a local
  `RESERVE_SLOT_COUNT = 2` inside `Reserve2x1Slot`, and the modelled code does not fix
  the value of `RESERVED_SLOT_COUNT`, so `Update` takes it as a parameter.
- **Repack result.** The code returns its grid manager, not a mapping from item to
  offset. The model returns the container's new grids.

## Model

| member | source | states |
|---|---|---|
| Inventory.GetContainerSize | LootingBots/utils/LootUtils.cs:13-24 | the loop's total is the sum of height times width over all grids |
| Inventory.ItemSize | LootingBots/utils/LootUtils.cs:146-150 | the cell count of an item is never negative, is zero only for an item with a zero dimension, and otherwise is at least each dimension |
| Inventory.GetSizeOfContainedItems | LootingBots/utils/LootUtils.cs:141-150 | the left fold from 0 equals the sum over the grid's items of width times height |
| Inventory.SortGrids | LootingBots/utils/LootUtils.cs:105-118 | the result is a permutation of the grids, ordered by non-decreasing area (tie order unspecified) |
| Inventory.Reserve2x1Slot | LootingBots/utils/LootUtils.cs:120-139 | at most one grid is removed and no grid is added |
| Inventory.ReserveKeepsGridsWithoutReservable | LootingBots/utils/LootUtils.cs:124-138 | with no grid of area >= 2 and free area >= 2, the grids come back unchanged |
| Inventory.ReserveRemovesFirstReservable | LootingBots/utils/LootUtils.cs:124-135 | exactly the first qualifying grid is removed; the others keep their order |
| Inventory.GetPrioritizedGridsForLoot | LootingBots/utils/LootUtils.cs:173-223 | bullets and magazines: rig, pockets, backpack, secure; grenades: pockets, rig, backpack, secure; others: backpack, rig, pockets, secure; secure grids always last in native order |
| Inventory.ReserveAfterSortWithholdsSmallest | LootingBots/utils/LootUtils.cs:124-135 | sorting then reserving holds back exactly one grid when one is reservable: a reservable grid of least area |
| Inventory.VestWithholdsSmallestReservable | LootingBots/utils/LootUtils.cs:189-194 | when the rig has a reservable grid, exactly one rig grid is held back, and it is a smallest reservable one |
| Inventory.VestGroupWithholdsAtMostOne | LootingBots/utils/LootUtils.cs:189-194 | the rig group is the rig's grids minus at most one; exactly one reservable grid is held back when the rig has one, and all rig grids come back sorted when none is reservable |
| Inventory.PrioritizedGridsWithholdOneReservable | LootingBots/utils/LootUtils.cs:179-222 | when the rig has a reservable grid, the prioritised grids are the equipped grids minus exactly one reservable rig grid |
| Inventory.PrioritizedGridsAreEquippedGrids | LootingBots/utils/LootUtils.cs:179-222 | the prioritised grids are the equipped grids (an absent slot has none), minus exactly one reservable rig grid when the rig has one and minus nothing otherwise |
| Inventory.FirstFreeGrid | LootingBots/utils/LootUtils.cs:161-170 | a found address is a listed grid with the position the free-space query returned for it |
| Inventory.FindGridToPickUp | LootingBots/utils/LootUtils.cs:153-171 | searches the given grids, or the prioritised grids when none are given |
| Inventory.FirstFreeGridIsFirstMatch | LootingBots/utils/LootUtils.cs:159-170 | returns the first grid with free space, and null exactly when no grid has free space |
| Packing.TryAdd | LootingBots/utils/LootUtils.cs:76 | the add succeeds exactly when the oracle accepts, and then appends only that item |
| Packing.PlaceItem | LootingBots/utils/LootUtils.cs:73-88 | a placement adds that one item to one grid and changes nothing else |
| Packing.PlaceItemFailsIffNoGridFits | LootingBots/utils/LootUtils.cs:71-90 | placing an item fails exactly when no grid in the order accepts it |
| Packing.PlaceItemIsFirstFit | LootingBots/utils/LootUtils.cs:74-87 | the item is appended to the first grid in order that accepts it, and to no other grid |
| Packing.Pack | LootingBots/utils/LootUtils.cs:69-97 | on success the grids hold their old items plus exactly the placed items; a failure names one of the items |
| Packing.PackFailsOnFirstUnplaceable | LootingBots/utils/LootUtils.cs:69-96 | the failing item comes after all earlier items were placed, and then fit in no grid |
| Packing.PackKeepsGridsLargestFirst | LootingBots/utils/LootUtils.cs:59-89 | placing items largest first leaves every grid's items in non-increasing size |
| Packing.ClearAll | LootingBots/utils/LootUtils.cs:51-57 | every grid is emptied and keeps its identity and dimensions |
| Packing.SmallestFirstOrder | LootingBots/utils/LootUtils.cs:64-65 | the grid order tries every grid exactly once, smallest area first |
| Packing.SortItemsLargestFirst | LootingBots/utils/LootUtils.cs:59-62 | the taken-out items are permuted into non-increasing size order |
| Packing.RepackGrids | LootingBots/utils/LootUtils.cs:51-97 | a failure names an item the container held; a success keeps the grids, holds the same multiset of items, and each grid is largest first |
| Packing.SortContainer | LootingBots/utils/LootUtils.cs:39-103 | null container: failure with no item and no change; failure: container restored and the item is one it held; success: same grids, same multiset of items, each grid largest first |
| Packing.SortContainerConservesArea | LootingBots/utils/LootUtils.cs:51-98 | a successful repack holds the same total item area |
| Packing.SmallestFirstOrderCoversAll | LootingBots/utils/LootUtils.cs:64-74 | every grid of the container is among the grids tried |
| Packing.PackFailureFitsNoGrid | LootingBots/utils/LootUtils.cs:69-96 | when every grid is tried, the failing item was accepted by no grid at that point |
| Packing.RepackFailureIsUnplaceable | LootingBots/utils/LootUtils.cs:69-96 | the reported item fit in none of the container's grids once its larger predecessors were placed |
| FindLoot.DetectionRadius | LootingBots/logics/FindLootLogic.cs:65-70 | the query radius is the largest of the three configured distances |
| FindLoot.ClassifyLootType | LootingBots/logics/FindLootLogic.cs:145-150 | Container iff a container component exists; Item iff none but a loot item exists; else Corpse |
| FindLoot.GetDestination | LootingBots/logics/FindLootLogic.cs:216-243 | the padded snap if it succeeded, else the first snap, else the zero vector |
| FindLoot.OriginDestinationIsRejected | LootingBots/logics/FindLootLogic.cs:202-242 | the destination compares equal to the zero vector exactly when the used snap lies within 1e-5 of the origin or both snaps failed, and then the range check answers false with distance -1 |
| FindLoot.IsLootInRange | LootingBots/logics/FindLootLogic.cs:196-214 | a destination equal to zero under Unity's approximate comparison gives false with dist -1; otherwise in range iff path length <= square of the type's configured distance |
| FindLoot.PointNearOriginIsRejected | LootingBots/logics/FindLootLogic.cs:202-206 | a destination 1e-6 from the origin is rejected with dist -1 even with a zero-length path |
| FindLoot.SquaredThresholdQuirk | LootingBots/logics/FindLootLogic.cs:24-35 | a configured distance d > 1 admits paths in (d, d*d]; d < 1 rejects paths in (d*d, d] |
| FindLoot.CanLootContainer | LootingBots/logics/FindLootLogic.cs:108-115 | container looting enabled for the role, a container that is not ignored, active and not locked; such a collider is always range-checked as a container |
| FindLoot.CanLootItem | LootingBots/logics/FindLootLogic.cs:117-128 | loose-item looting enabled for the role, a loot item that is not a corpse, with a root item that is not a quest item, valuable enough, smaller than the free grid spaces and not ignored; then the bot has a free cell and the collider is not range-checked as a corpse |
| FindLoot.CanLootCorpse | LootingBots/logics/FindLootLogic.cs:130-136 | corpse looting enabled for the role, a bot corpse with its player, whose name is not ignored; it is range-checked as a corpse only when no container or loot item is present |
| FindLoot.Apply | LootingBots/logics/FindLootLogic.cs:160-183 | the target goes into the active field of its kind, position, distance and destination come from the commit, the cache maps the commit's id to the bot; other cache entries, the other active fields and the free grid spaces are unchanged |
| FindLoot.CommitFor | LootingBots/logics/FindLootLogic.cs:108-184 | container if it may be looted, else corpse, else item; the cached id is never ignored; committed items are not quest items and fit the free spaces |
| FindLoot.RangeTypeAndBranchCanDisagree | LootingBots/logics/FindLootLogic.cs:145-175 | an ineligible container with a lootable corpse is range-checked as a container and committed as a corpse |
| FindLoot.SelectFirstIsFirstQualifying | LootingBots/logics/FindLootLogic.cs:99-187 | the loop commits the first present, eligible, in-range entry, and nothing when none qualifies |
| FindLoot.NothingSelectedIffNoneQualifies | LootingBots/logics/FindLootLogic.cs:84-187 | whatever order the entries are sorted into, nothing is committed exactly when no entry qualifies |
| FindLoot.NearestQualifyingIsSelected | LootingBots/logics/FindLootLogic.cs:84-187 | once the entries are sorted by straight-line distance, the committed entry qualifies and is no farther than any qualifying entry |
| FindLoot.FindLootable | LootingBots/logics/FindLootLogic.cs:61-191 | among the first colliderCount of the 250 entries: no qualifying entry leaves the state unchanged; otherwise the nearest qualifying entry is committed |
| FindLoot.Update | LootingBots/logics/FindLootLogic.cs:52-59 | a scan runs only when free grid spaces exceed the reserved slot count; otherwise nothing changes |
| FindLoot.ScanWritesOneCacheEntry | LootingBots/logics/FindLootLogic.cs:156-184 | a scan writes at most one cache entry, a non-ignored id paired with the bot's name |

## Left out

- Engine queries are oracles and not modelled: `Physics.OverlapSphereNonAlloc`,
  `NavMesh.SamplePosition`, `ComputePathLengthToPoint`, `GetComponentInParent`, and the
  internals of `grid.Add` and `FindFreeSpace` (in-grid coordinates, rotation, overlap).
- Float geometry is left out. Distances are `real`, without rounding or NaN; the
  approximate zero test is evaluated exactly on reals, not in single precision. The
  padding normalisation in `GetDestination` is not modelled, only its fallback rule.
  `bounds.center` is lowered by the extents and 0.4 before snapping; that shift belongs
  to the snap oracle.
- Sort ties: `List.Sort` is unstable. The model sorts with a stable insertion sort, and
  its contracts promise only an ordered permutation. A null buffer entry sorts as
  distance 0 and is skipped; the source's comparator would fault on such an entry.
- `LootingBrain.IsLootIgnored` is not part of this model. Whether it excludes loot
  already claimed by other bots in `ActiveLootCache` is outside the model.
- `ActiveLootCache` is not part of this model. Only the single cache write is modelled,
  as a map update. Release, claim exclusivity and concurrent access are not modelled.
- `IsSingleUseKey` and `InteractContainer` are thin engine wrappers.
- `GClass2462` (the grid manager) and `RaiseEvent` are engine internals. Rollback is
  modelled only by its result: the container as it was.
- Logging and stopwatches.
- `CorpseLootPatch/CorpseLootSettingsPatch.cs` only assigns difficulty settings fields.
- `LootingBrain.IsLootIgnored`, `IsValuableEnough` and `IsBotEnabled` are predicates
  supplied by the caller. Role enabling is modelled as membership in a role set.
- Integer width: grid and item dimensions are unbounded naturals. The 32-bit products
  of the source cannot overflow for real grid sizes.
