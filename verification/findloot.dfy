/**
 FindLootLogic of LootingBots/logics/FindLootLogic.cs: the per-tick scan that picks the
 nearest eligible, reachable lootable for one bot and commits it to the bot's looting
 brain and the shared active-loot cache. The physics overlap query, the NavMesh snaps
 and the path-length query are oracles whose answers are carried by each collider.
 */
module FindLoot {
  import opened Wrappers
  import opened Sequences
  import Inventory

  /** Size of the collider buffer the overlap query writes into. */
  const ColliderBufferSize := 250

  /** LootType: how a collider is classified for the range check. */
  datatype LootType = Corpse | Container | Item

  /** A world position (UnityEngine.Vector3). */
  datatype Point = Point(x: real, y: real, z: real)

  /** Vector3.zero, which GetDestination also returns when no NavMesh point was found. */
  const Zero := Point(0.0, 0.0, 0.0)

  /**
   Unity's `Vector3 ==` against Vector3.zero: the comparison is approximate and holds
   when the squared magnitude is below kEpsilon squared, with kEpsilon = 1e-5.
   */
  predicate NearZero(p: Point) {
    p.x * p.x + p.y * p.y + p.z * p.z < 0.0000000001
  }

  /** The door states of a lootable container (EDoorState). */
  datatype DoorState = NoDoorState | Locked | Shut | Open | Interacting | Breaching

  /** A LootableContainer component. */
  datatype LootableContainer = LootableContainer(id: string, isActiveAndEnabled: bool, doorState: DoorState, position: Point)

  /**
   A LootItem component: `isCorpse` is the `lootItem is Corpse` test, `rootItem` is
   `ItemOwner?.RootItem` (None when either is null).
   */
  datatype LootItem = LootItem(isCorpse: bool, rootItem: Option<Inventory.Item>, position: Point)

  /** A BotOwner component found on a corpse; `hasPlayer` is `GetPlayer != null`. */
  datatype BotCorpse = BotCorpse(name: string, hasPlayer: bool, position: Point)

  /**
   One hit of the overlap query, with the answers of the engine queries about it:
   the straight-line distance from its bounds' center to the bot, the components found
   by GetComponentInParent, the results of the two NavMesh snaps made by GetDestination,
   and the path length ComputePathLengthToPoint reports for the destination.
   */
  datatype Collider = Collider(
    straightDist: real,
    container: Option<LootableContainer>,
    lootItem: Option<LootItem>,
    corpse: Option<BotCorpse>,
    firstSnap: Option<Point>,
    secondSnap: Option<Point>,
    pathLength: real)

  /** The configured detection distances and the bot roles each kind of looting is enabled for. */
  datatype Settings = Settings(
    detectItemDistance: real,
    detectContainerDistance: real,
    detectCorpseDistance: real,
    containerLootingRoles: set<string>,
    looseItemLootingRoles: set<string>,
    corpseLootingRoles: set<string>)

  /**
   What a scan reads but does not change: the bot's name and role, the settings, and
   the brain's ignore list and value threshold as predicates.
   */
  datatype ScanContext = ScanContext(
    botName: string,
    role: string,
    settings: Settings,
    isLootIgnored: string -> bool,
    isValuableEnough: Inventory.Item -> bool)

  /** The fields of the looting brain a scan reads or writes. */
  datatype Brain = Brain(
    availableGridSpaces: int,
    activeContainer: Option<LootableContainer>,
    activeCorpse: Option<BotCorpse>,
    activeItem: Option<LootItem>,
    lootObjectPosition: Point,
    distanceToLoot: real,
    destination: Point)

  /** The brain plus the active-loot cache (loot id to the name of the bot pursuing it). */
  datatype ScanState = ScanState(brain: Brain, activeLoot: map<string, string>)

  /** The query radius: the largest of the three configured detection distances. */
  function DetectionRadius(s: Settings): (r: real)
    ensures r >= s.detectItemDistance && r >= s.detectContainerDistance && r >= s.detectCorpseDistance
    ensures r == s.detectItemDistance || r == s.detectContainerDistance || r == s.detectCorpseDistance
  {
    var m := if s.detectItemDistance >= s.detectContainerDistance then s.detectItemDistance else s.detectContainerDistance;
    if m >= s.detectCorpseDistance then m else s.detectCorpseDistance
  }

  /** Mathf.Pow(d, 2). */
  function Squared(d: real): real {
    d * d
  }

  /** The configured (unsquared) detection distance for a loot type. */
  function ConfiguredDistance(s: Settings, t: LootType): real {
    match t
    case Container => s.detectContainerDistance
    case Item => s.detectItemDistance
    case Corpse => s.detectCorpseDistance
  }

  /** LootType of a collider: decided by which components are present, not by eligibility. */
  function ClassifyLootType(c: Collider): (t: LootType)
    ensures t == Container <==> c.container.Some?
    ensures t == Item <==> c.container.None? && c.lootItem.Some?
  {
    if c.container.Some? then Container
    else if c.lootItem.Some? then Item
    else Corpse
  }

  /**
   GetDestination's fallback rule: the second (padded) snap if it succeeded, else the
   first snap, else Vector3.zero.
   */
  function GetDestination(firstSnap: Option<Point>, secondSnap: Option<Point>): (p: Point)
    ensures secondSnap.Some? ==> p == secondSnap.value
    ensures secondSnap.None? && firstSnap.Some? ==> p == firstSnap.value
    ensures secondSnap.None? && firstSnap.None? ==> p == Zero
  {
    if secondSnap.Some? then secondSnap.value
    else if firstSnap.Some? then firstSnap.value
    else Zero
  }

  /** The answer of IsLootInRange together with its `dist` out-parameter. */
  datatype RangeCheck = RangeCheck(inRange: bool, dist: real)

  /**
   IsLootInRange: a destination equal to the zero vector under Unity's approximate
   comparison is out of range with distance -1; otherwise the
   path length is compared with the SQUARE of the configured distance for the type.
   */
  function IsLootInRange(s: Settings, lootType: LootType, destination: Point, pathLength: real): (r: RangeCheck)
    ensures NearZero(destination) ==> r == RangeCheck(false, -1.0)
    ensures !NearZero(destination) ==> r.dist == pathLength
    ensures r.inRange <==>
      !NearZero(destination) && pathLength <= ConfiguredDistance(s, lootType) * ConfiguredDistance(s, lootType)
  {
    var isContainer := lootType == Container;
    var isItem := lootType == Item;
    var isCorpse := lootType == Corpse;
    if NearZero(destination) then RangeCheck(false, -1.0)
    else
      var dist := pathLength;
      RangeCheck(
        (isContainer && Squared(s.detectContainerDistance) >= dist)
        || (isItem && Squared(s.detectItemDistance) >= dist)
        || (isCorpse && Squared(s.detectCorpseDistance) >= dist),
        dist)
  }

  /**
   Because the threshold is squared, a configured distance above 1 admits paths longer
   than that distance, and a configured distance below 1 rejects paths shorter than it.
   */
  lemma SquaredThresholdQuirk(s: Settings, t: LootType, destination: Point, pathLength: real)
    requires !NearZero(destination)
    ensures var d := ConfiguredDistance(s, t);
      d > 1.0 && d < pathLength <= d * d ==> IsLootInRange(s, t, destination, pathLength).inRange
    ensures var d := ConfiguredDistance(s, t);
      0.0 <= d < 1.0 && d * d < pathLength <= d ==> !IsLootInRange(s, t, destination, pathLength).inRange
  {
  }

  /**
   canLootContainer: looting containers is enabled for the bot's role, and the collider
   carries a container that is not ignored, active and not locked. Such a collider is
   always range-checked as a container.
   */
  predicate CanLootContainer(ctx: ScanContext, c: Collider): (b: bool)
    ensures ctx.role !in ctx.settings.containerLootingRoles ==> !b
    ensures b ==> ClassifyLootType(c) == Container && !ctx.isLootIgnored(c.container.value.id)
  {
    && ctx.role in ctx.settings.containerLootingRoles
    && c.container.Some?
    && !ctx.isLootIgnored(c.container.value.id)
    && c.container.value.isActiveAndEnabled
    && c.container.value.doorState != Locked
  }

  /**
   canLootItem (`spaces` is the brain's available grid spaces): looting loose items is
   enabled for the role, and the collider carries a loot item that is not a corpse, whose
   root item exists, is not a quest item, is valuable enough, is smaller than the free
   space and is not ignored. Such a collider is never range-checked as a corpse, and the
   bot has at least one free cell.
   */
  predicate CanLootItem(ctx: ScanContext, spaces: int, c: Collider): (b: bool)
    ensures ctx.role !in ctx.settings.looseItemLootingRoles ==> !b
    ensures b ==> ClassifyLootType(c) != Corpse && spaces > 0
    ensures b ==> c.lootItem.Some? && c.lootItem.value.rootItem.Some? && !ctx.isLootIgnored(c.lootItem.value.rootItem.value.id)
  {
    && ctx.role in ctx.settings.looseItemLootingRoles
    && c.lootItem.Some?
    && !c.lootItem.value.isCorpse
    && c.lootItem.value.rootItem.Some?
    && !c.lootItem.value.rootItem.value.questItem
    && ctx.isValuableEnough(c.lootItem.value.rootItem.value)
    && spaces > Inventory.ItemSize(c.lootItem.value.rootItem.value)
    && !ctx.isLootIgnored(c.lootItem.value.rootItem.value.id)
  }

  /**
   canLootCorpse: looting corpses is enabled for the role, and the collider carries a
   bot corpse that still has its player and whose name is not ignored. Such a collider
   is range-checked as a corpse only when it carries neither a container nor a loot item.
   */
  predicate CanLootCorpse(ctx: ScanContext, c: Collider): (b: bool)
    ensures ctx.role !in ctx.settings.corpseLootingRoles ==> !b
    ensures b ==> c.corpse.Some? && !ctx.isLootIgnored(c.corpse.value.name)
    ensures b ==> (ClassifyLootType(c) == Corpse <==> c.container.None? && c.lootItem.None?)
  {
    && ctx.role in ctx.settings.corpseLootingRoles
    && c.corpse.Some?
    && c.corpse.value.hasPlayer
    && !ctx.isLootIgnored(c.corpse.value.name)
  }

  predicate Eligible(ctx: ScanContext, spaces: int, c: Collider) {
    CanLootContainer(ctx, c) || CanLootItem(ctx, spaces, c) || CanLootCorpse(ctx, c)
  }

  /** The destination GetDestination yields for a collider. */
  function DestinationOf(c: Collider): Point {
    GetDestination(c.firstSnap, c.secondSnap)
  }

  /** The range check a collider is put through: its type comes from component presence. */
  function RangeOf(ctx: ScanContext, c: Collider): RangeCheck {
    IsLootInRange(ctx.settings, ClassifyLootType(c), DestinationOf(c), c.pathLength)
  }

  /**
   A collider's destination compares equal to the zero vector exactly when the used
   snap landed within 1e-5 of the origin or both snaps failed, and such a collider is
   out of range with distance -1, even when the snap was a genuine NavMesh point.
   */
  lemma OriginDestinationIsRejected(ctx: ScanContext, c: Collider)
    ensures NearZero(DestinationOf(c)) <==>
      (c.secondSnap.Some? && NearZero(c.secondSnap.value))
      || (c.secondSnap.None? && (c.firstSnap.None? || NearZero(c.firstSnap.value)))
    ensures NearZero(DestinationOf(c)) ==> RangeOf(ctx, c) == RangeCheck(false, -1.0)
  {
    assert NearZero(Zero);
  }

  /**
   A NavMesh point a micrometre from the origin is rejected like the origin itself, even
   when its path is short enough for every configured distance.
   */
  lemma PointNearOriginIsRejected(s: Settings, t: LootType)
    ensures IsLootInRange(s, t, Point(0.000001, 0.0, 0.0), 0.0) == RangeCheck(false, -1.0)
  {
    assert NearZero(Point(0.000001, 0.0, 0.0));
  }

  /** A buffer entry that ends the scan: present, eligible and in range. */
  predicate Qualifies(ctx: ScanContext, spaces: int, slot: Option<Collider>) {
    slot.Some? && Eligible(ctx, spaces, slot.value) && RangeOf(ctx, slot.value).inRange
  }

  /** The lootable a scan commits to. */
  datatype Target = TargetContainer(container: LootableContainer) | TargetCorpse(corpse: BotCorpse) | TargetItem(item: LootItem)

  /** Everything a successful scan writes: the target, its cache id, its position, distance and destination. */
  datatype Commit = Commit(target: Target, lootId: string, position: Point, dist: real, destination: Point)

  /**
   The commit for an eligible, in-range collider: a container if it may be looted, else
   a corpse if it may be looted, else the loose item. The cached id is the one the
   eligibility test found not ignored.
   */
  function CommitFor(ctx: ScanContext, spaces: int, c: Collider): (r: Commit)
    requires Eligible(ctx, spaces, c)
    ensures !ctx.isLootIgnored(r.lootId)
    ensures r.dist == RangeOf(ctx, c).dist && r.destination == DestinationOf(c)
    ensures r.target.TargetContainer? <==> CanLootContainer(ctx, c)
    ensures r.target.TargetContainer? ==> r.target.container.doorState != Locked && r.target.container.isActiveAndEnabled
    ensures r.target.TargetCorpse? <==> !CanLootContainer(ctx, c) && CanLootCorpse(ctx, c)
    ensures r.target.TargetCorpse? ==> r.target.corpse.hasPlayer
    ensures r.target.TargetItem? <==> !CanLootContainer(ctx, c) && !CanLootCorpse(ctx, c)
    ensures r.target.TargetItem? ==>
      && CanLootItem(ctx, spaces, c)
      && r.target.item.rootItem.Some?
      && !r.target.item.rootItem.value.questItem
      && spaces > Inventory.ItemSize(r.target.item.rootItem.value)
  {
    var range := RangeOf(ctx, c);
    var destination := DestinationOf(c);
    if CanLootContainer(ctx, c) then
      var container := c.container.value;
      Commit(TargetContainer(container), container.id, container.position, range.dist, destination)
    else if CanLootCorpse(ctx, c) then
      var corpse := c.corpse.value;
      Commit(TargetCorpse(corpse), corpse.name, corpse.position, range.dist, destination)
    else
      var item := c.lootItem.value;
      Commit(TargetItem(item), item.rootItem.value.id, item.position, range.dist, destination)
  }

  /**
   Which range threshold applies follows component presence, while the committed branch
   follows eligibility: a collider carrying an ineligible container and a lootable
   corpse is range-checked as a container and committed as a corpse.
   */
  lemma RangeTypeAndBranchCanDisagree(ctx: ScanContext, spaces: int, c: Collider)
    requires c.container.Some? && !CanLootContainer(ctx, c) && CanLootCorpse(ctx, c)
    ensures ClassifyLootType(c) == Container
    ensures CommitFor(ctx, spaces, c).target.TargetCorpse?
    ensures RangeOf(ctx, c).inRange <==>
      !NearZero(DestinationOf(c)) && c.pathLength <= Squared(ctx.settings.detectContainerDistance)
  {
  }

  /**
   Writes a commit into the brain and the active-loot cache: the target goes into the
   active field of its kind, position, distance and destination are taken from the
   commit, and the cache gains the commit's id for the bot. Every other cache entry, the
   other two active fields and the free grid spaces stay as they were.
   */
  function Apply(state: ScanState, botName: string, commit: Commit): (r: ScanState)
    ensures r.activeLoot.Keys == state.activeLoot.Keys + {commit.lootId}
    ensures r.activeLoot[commit.lootId] == botName
    ensures forall id :: id in state.activeLoot && id != commit.lootId ==> r.activeLoot[id] == state.activeLoot[id]
    ensures r.brain.availableGridSpaces == state.brain.availableGridSpaces
    ensures r.brain.lootObjectPosition == commit.position && r.brain.distanceToLoot == commit.dist
    ensures r.brain.destination == commit.destination
    ensures commit.target.TargetContainer? ==> (r.brain.activeContainer == Some(commit.target.container)
      && r.brain.activeCorpse == state.brain.activeCorpse && r.brain.activeItem == state.brain.activeItem)
    ensures commit.target.TargetCorpse? ==> (r.brain.activeCorpse == Some(commit.target.corpse)
      && r.brain.activeContainer == state.brain.activeContainer && r.brain.activeItem == state.brain.activeItem)
    ensures commit.target.TargetItem? ==> (r.brain.activeItem == Some(commit.target.item)
      && r.brain.activeContainer == state.brain.activeContainer && r.brain.activeCorpse == state.brain.activeCorpse)
  {
    var b := state.brain;
    var b' := match commit.target
      case TargetContainer(container) => b.(activeContainer := Some(container))
      case TargetCorpse(corpse) => b.(activeCorpse := Some(corpse))
      case TargetItem(item) => b.(activeItem := Some(item));
    ScanState(
      b'.(lootObjectPosition := commit.position, distanceToLoot := commit.dist, destination := commit.destination),
      state.activeLoot[commit.lootId := botName])
  }

  /** The loop of FindLootable over the sorted entries: the first qualifying entry, if any. */
  function SelectFirst(ctx: ScanContext, spaces: int, slots: seq<Option<Collider>>): Option<Commit> {
    if |slots| == 0 then None
    else if Qualifies(ctx, spaces, slots[0]) then Some(CommitFor(ctx, spaces, slots[0].value))
    else SelectFirst(ctx, spaces, slots[1..])
  }

  /** SelectFirst commits the first qualifying entry, and nothing exactly when none qualifies. */
  lemma {:induction false} SelectFirstIsFirstQualifying(ctx: ScanContext, spaces: int, slots: seq<Option<Collider>>)
    ensures SelectFirst(ctx, spaces, slots).None? <==> forall k :: 0 <= k < |slots| ==> !Qualifies(ctx, spaces, slots[k])
    ensures SelectFirst(ctx, spaces, slots).Some? ==>
      exists k :: 0 <= k < |slots| && Qualifies(ctx, spaces, slots[k])
        && (forall j :: 0 <= j < k ==> !Qualifies(ctx, spaces, slots[j]))
        && SelectFirst(ctx, spaces, slots) == Some(CommitFor(ctx, spaces, slots[k].value))
  {
    if |slots| == 0 {
    } else if Qualifies(ctx, spaces, slots[0]) {
    } else {
      var tail := slots[1..];
      assert SelectFirst(ctx, spaces, slots) == SelectFirst(ctx, spaces, tail);
      SelectFirstIsFirstQualifying(ctx, spaces, tail);
      if SelectFirst(ctx, spaces, tail).Some? {
        var k :| 0 <= k < |tail| && Qualifies(ctx, spaces, tail[k])
          && (forall j :: 0 <= j < k ==> !Qualifies(ctx, spaces, tail[j]))
          && SelectFirst(ctx, spaces, tail) == Some(CommitFor(ctx, spaces, tail[k].value));
        forall j | 0 <= j < k + 1 ensures !Qualifies(ctx, spaces, slots[j]) {
          if j > 0 {
            assert slots[j] == tail[j - 1];
          }
        }
        assert slots[k + 1] == tail[k];
        assert SelectFirst(ctx, spaces, slots) == Some(CommitFor(ctx, spaces, slots[k + 1].value));
      } else {
        forall k | 0 <= k < |slots| ensures !Qualifies(ctx, spaces, slots[k]) {
          if k > 0 {
            assert slots[k] == tail[k - 1];
          }
        }
      }
    }
  }

  /** Sort key: straight-line distance; a null entry sorts as distance 0 and is skipped anyway. */
  function SlotKey(slot: Option<Collider>): real {
    if slot.Some? then slot.value.straightDist else 0.0
  }

  /** Selecting from any reordering of the entries commits nothing exactly when no entry qualifies. */
  lemma NothingSelectedIffNoneQualifies(ctx: ScanContext, spaces: int, slots: seq<Option<Collider>>, sorted: seq<Option<Collider>>)
    requires multiset(sorted) == multiset(slots)
    ensures SelectFirst(ctx, spaces, sorted).None? <==>
      forall i :: 0 <= i < |slots| ==> !Qualifies(ctx, spaces, slots[i])
  {
    SelectFirstIsFirstQualifying(ctx, spaces, sorted);
    if SelectFirst(ctx, spaces, sorted).Some? {
      var k :| 0 <= k < |sorted| && Qualifies(ctx, spaces, sorted[k]);
      assert sorted[k] in multiset(slots);
    } else {
      forall i | 0 <= i < |slots| ensures !Qualifies(ctx, spaces, slots[i]) {
        assert slots[i] in multiset(sorted);
      }
    }
  }

  /**
   Selecting from the entries sorted by straight-line distance commits a qualifying
   entry that is at least as near as every qualifying entry.
   */
  lemma NearestQualifyingIsSelected(ctx: ScanContext, spaces: int, slots: seq<Option<Collider>>, sorted: seq<Option<Collider>>)
    requires multiset(sorted) == multiset(slots) && SortedBy(sorted, SlotKey)
    requires SelectFirst(ctx, spaces, sorted).Some?
    ensures exists i :: (0 <= i < |slots| && Qualifies(ctx, spaces, slots[i])
      && SelectFirst(ctx, spaces, sorted) == Some(CommitFor(ctx, spaces, slots[i].value))
      && forall j :: 0 <= j < |slots| && Qualifies(ctx, spaces, slots[j]) ==>
           slots[i].value.straightDist <= slots[j].value.straightDist)
  {
    SelectFirstIsFirstQualifying(ctx, spaces, sorted);
    var k :| 0 <= k < |sorted| && Qualifies(ctx, spaces, sorted[k])
      && (forall j :: 0 <= j < k ==> !Qualifies(ctx, spaces, sorted[j]))
      && SelectFirst(ctx, spaces, sorted) == Some(CommitFor(ctx, spaces, sorted[k].value));
    assert sorted[k] in multiset(slots);
    var i :| 0 <= i < |slots| && slots[i] == sorted[k];
    var p := (slot: Option<Collider>) => Qualifies(ctx, spaces, slot);
    FirstMatchHasLeastKey(slots, sorted, SlotKey, p, k);
    forall j | 0 <= j < |slots| && Qualifies(ctx, spaces, slots[j])
      ensures slots[i].value.straightDist <= slots[j].value.straightDist
    {
      assert p(slots[j]);
      assert SlotKey(sorted[k]) <= SlotKey(slots[j]);
    }
  }

  /**
   FindLootable: `buffer` and `colliderCount` are the answer of the overlap-sphere query
   around the bot with radius `DetectionRadius(ctx.settings)` (the query itself is not
   modelled). It sorts the first `colliderCount` buffer entries by straight-line distance
   and commits the first one that is eligible and in range. The committed entry is a
   qualifying entry no farther (in straight line) than any other qualifying entry; when
   none qualifies the state is unchanged.
   */
  function FindLootable(ctx: ScanContext, buffer: seq<Option<Collider>>, colliderCount: nat, state: ScanState): (r: ScanState)
    requires |buffer| == ColliderBufferSize && colliderCount <= |buffer|
    ensures (forall i :: 0 <= i < colliderCount ==> !Qualifies(ctx, state.brain.availableGridSpaces, buffer[i])) ==> r == state
    ensures (exists i :: 0 <= i < colliderCount && Qualifies(ctx, state.brain.availableGridSpaces, buffer[i])) ==>
      exists i :: 0 <= i < colliderCount && Qualifies(ctx, state.brain.availableGridSpaces, buffer[i])
        && r == Apply(state, ctx.botName, CommitFor(ctx, state.brain.availableGridSpaces, buffer[i].value))
        && forall j :: 0 <= j < colliderCount && Qualifies(ctx, state.brain.availableGridSpaces, buffer[j]) ==>
             buffer[i].value.straightDist <= buffer[j].value.straightDist
  {
    var spaces := state.brain.availableGridSpaces;
    var colliders := buffer[..colliderCount];
    var sorted := SortBy(colliders, SlotKey);
    NothingSelectedIffNoneQualifies(ctx, spaces, colliders, sorted);
    assert forall i :: 0 <= i < colliderCount ==> colliders[i] == buffer[i];
    match SelectFirst(ctx, spaces, sorted)
    case None => state
    case Some(commit) =>
      NearestQualifyingIsSelected(ctx, spaces, colliders, sorted);
      Apply(state, ctx.botName, commit)
  }

  /**
   Update: a scan runs only when the bot has more free grid spaces than the slots it
   keeps for ammunition; otherwise nothing changes.
   */
  function Update(ctx: ScanContext, reservedSlotCount: int, buffer: seq<Option<Collider>>, colliderCount: nat, state: ScanState): (r: ScanState)
    requires |buffer| == ColliderBufferSize && colliderCount <= |buffer|
    ensures state.brain.availableGridSpaces <= reservedSlotCount ==> r == state
    ensures state.brain.availableGridSpaces > reservedSlotCount ==> r == FindLootable(ctx, buffer, colliderCount, state)
  {
    if state.brain.availableGridSpaces > reservedSlotCount then FindLootable(ctx, buffer, colliderCount, state) else state
  }

  /**
   A scan writes at most one cache entry, keyed by a loot id the bot does not ignore and
   paired with the bot's name, and leaves every other entry as it was.
   */
  lemma ScanWritesOneCacheEntry(ctx: ScanContext, buffer: seq<Option<Collider>>, colliderCount: nat, state: ScanState)
    requires |buffer| == ColliderBufferSize && colliderCount <= |buffer|
    ensures var r := FindLootable(ctx, buffer, colliderCount, state);
      r == state || exists id :: !ctx.isLootIgnored(id) && r.activeLoot == state.activeLoot[id := ctx.botName]
  {
    var spaces := state.brain.availableGridSpaces;
    var colliders := buffer[..colliderCount];
    var sorted := SortBy(colliders, SlotKey);
    match SelectFirst(ctx, spaces, sorted)
    case None =>
    case Some(commit) =>
      NearestQualifyingIsSelected(ctx, spaces, colliders, sorted);
      var i :| 0 <= i < |colliders| && Qualifies(ctx, spaces, colliders[i])
        && SelectFirst(ctx, spaces, sorted) == Some(CommitFor(ctx, spaces, colliders[i].value));
      assert !ctx.isLootIgnored(commit.lootId);
  }
}
