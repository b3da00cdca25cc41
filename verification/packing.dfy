/**
 SortContainer of LootingBots/utils/LootUtils.cs: first-fit-decreasing repacking of a
 container's grids with rollback. The engine's `grid.Add` is the oracle `fits`, which
 decides from the grid (its size and current contents) and the item whether the add
 succeeds; a successful add appends exactly that item to the grid.
 */
module Packing {
  import opened Wrappers
  import opened Sequences
  import opened Inventory

  /** Result of SortContainer: the grid manager on success, or the item that could not be placed. */
  datatype SortOutcome = Sorted | SortFailed(item: Option<Item>)

  /** The outcome together with the container's state after the call. */
  datatype Repack = Repack(outcome: SortOutcome, container: Option<Container>)

  /** Result of placing a list of items: the updated grids, or the first item that fit nowhere. */
  datatype PackResult = Packed(grids: seq<Grid>) | Unplaced(item: Item)

  /** A grid with no items: its identity and dimensions. */
  function Shape(g: Grid): Grid {
    g.(items := [])
  }

  /** Two grid lists differ in their contents at most. */
  predicate SameShape(a: seq<Grid>, b: seq<Grid>) {
    |a| == |b| && forall i :: 0 <= i < |a| ==> Shape(a[i]) == Shape(b[i])
  }

  /** Items in non-increasing size order. */
  predicate LargestFirst(items: seq<Item>) {
    forall i, j :: 0 <= i < j < |items| ==> ItemSize(items[i]) >= ItemSize(items[j])
  }

  /** Every item held by the grids, grid by grid. */
  function AllItems(gs: seq<Grid>): seq<Item> {
    if |gs| == 0 then [] else gs[0].items + AllItems(gs[1..])
  }

  /** Appending items to one grid adds exactly those items to the held items. */
  lemma {:induction false} AllItemsAppend(gs: seq<Grid>, k: nat, extra: seq<Item>)
    requires k < |gs|
    ensures multiset(AllItems(gs[k := gs[k].(items := gs[k].items + extra)])) == multiset(AllItems(gs)) + multiset(extra)
  {
    var g := gs[k].(items := gs[k].items + extra);
    var tail := gs[1..];
    if k == 0 {
      assert gs[k := g][1..] == tail;
      calc {
        multiset(AllItems(gs[k := g]));
        multiset(g.items + AllItems(tail));
        multiset(gs[0].items) + multiset(extra) + multiset(AllItems(tail));
        multiset(gs[0].items) + multiset(AllItems(tail)) + multiset(extra);
        multiset(AllItems(gs)) + multiset(extra);
      }
    } else {
      assert gs[k := g][1..] == tail[k - 1 := g];
      assert gs[k := g][0] == gs[0];
      assert tail[k - 1] == gs[k];
      AllItemsAppend(tail, k - 1, extra);
      calc {
        multiset(AllItems(gs[k := g]));
        multiset(gs[0].items + AllItems(tail[k - 1 := g]));
        multiset(gs[0].items) + multiset(AllItems(tail[k - 1 := g]));
        multiset(gs[0].items) + multiset(AllItems(tail)) + multiset(extra);
        multiset(AllItems(gs)) + multiset(extra);
      }
    }
  }

  /** grid.Add: succeeds when the oracle says so, and then appends exactly that item. */
  function TryAdd(g: Grid, it: Item, fits: (Grid, Item) -> bool): (r: Option<Grid>)
    ensures r.Some? <==> fits(g, it)
    ensures r.Some? ==> Shape(r.value) == Shape(g) && r.value.items == g.items + [it]
  {
    if fits(g, it) then Some(g.(items := g.items + [it])) else None
  }

  /** Tries the grids in `order` (indices into `gs`) and adds the item to the first that accepts it. */
  function PlaceItem(gs: seq<Grid>, order: seq<nat>, it: Item, fits: (Grid, Item) -> bool): (r: Option<seq<Grid>>)
    requires forall k :: 0 <= k < |order| ==> order[k] < |gs|
    ensures r.Some? ==> SameShape(r.value, gs)
    ensures r.Some? ==> multiset(AllItems(r.value)) == multiset(AllItems(gs)) + multiset{it}
    ensures r.Some? ==> forall i :: 0 <= i < |gs| ==> r.value[i] == gs[i] || r.value[i].items == gs[i].items + [it]
    decreases |order|
  {
    if |order| == 0 then None
    else match TryAdd(gs[order[0]], it, fits)
      case Some(g) =>
        AllItemsAppend(gs, order[0], [it]);
        Some(gs[order[0] := g])
      case None => PlaceItem(gs, order[1..], it, fits)
  }

  /** Placement fails exactly when no grid in `order` accepts the item. */
  lemma {:induction false} PlaceItemFailsIffNoGridFits(gs: seq<Grid>, order: seq<nat>, it: Item, fits: (Grid, Item) -> bool)
    requires forall k :: 0 <= k < |order| ==> order[k] < |gs|
    ensures PlaceItem(gs, order, it, fits).None? <==> forall k :: 0 <= k < |order| ==> !fits(gs[order[k]], it)
    decreases |order|
  {
    if |order| > 0 && !fits(gs[order[0]], it) {
      var tail := order[1..];
      assert forall k :: 0 <= k < |tail| ==> tail[k] == order[k + 1];
      PlaceItemFailsIffNoGridFits(gs, tail, it, fits);
      assert forall k :: 1 <= k < |order| ==> order[k] == tail[k - 1];
    }
  }

  /** The placement is first-fit: the item goes to the first grid in `order` that accepts it. */
  lemma {:induction false} PlaceItemIsFirstFit(gs: seq<Grid>, order: seq<nat>, it: Item, fits: (Grid, Item) -> bool, k: nat)
    requires forall j :: 0 <= j < |order| ==> order[j] < |gs|
    requires k < |order| && fits(gs[order[k]], it)
    requires forall j :: 0 <= j < k ==> !fits(gs[order[j]], it)
    ensures PlaceItem(gs, order, it, fits) == Some(gs[order[k] := gs[order[k]].(items := gs[order[k]].items + [it])])
    decreases |order|
  {
    if k > 0 {
      var tail := order[1..];
      assert forall j :: 0 <= j < |tail| ==> tail[j] == order[j + 1];
      PlaceItemIsFirstFit(gs, tail, it, fits, k - 1);
    }
  }

  /** Places the items one after another; stops at the first item that fits nowhere. */
  function Pack(gs: seq<Grid>, order: seq<nat>, items: seq<Item>, fits: (Grid, Item) -> bool): (r: PackResult)
    requires forall k :: 0 <= k < |order| ==> order[k] < |gs|
    ensures r.Packed? ==> SameShape(r.grids, gs)
    ensures r.Packed? ==> multiset(AllItems(r.grids)) == multiset(AllItems(gs)) + multiset(items)
    ensures r.Unplaced? ==> r.item in items
    decreases |items|
  {
    if |items| == 0 then Packed(gs)
    else match PlaceItem(gs, order, items[0], fits)
      case None => Unplaced(items[0])
      case Some(gs') =>
        assert items == [items[0]] + items[1..];
        Pack(gs', order, items[1..], fits)
  }

  /** Packing a non-empty prefix starts by placing its first item. */
  lemma PackPrefixStep(gs: seq<Grid>, gs': seq<Grid>, order: seq<nat>, items: seq<Item>, n: nat, fits: (Grid, Item) -> bool)
    requires forall k :: 0 <= k < |order| ==> order[k] < |gs|
    requires 0 < |items| && n < |items|
    requires PlaceItem(gs, order, items[0], fits) == Some(gs')
    ensures Pack(gs, order, items[..n + 1], fits) == Pack(gs', order, items[1..][..n], fits)
  {
    var prefix := items[..n + 1];
    assert prefix[0] == items[0];
    assert prefix[1..] == items[1..][..n];
  }

  /**
   A failed pack names an item all of whose predecessors were placed and which, at
   that point, no grid in `order` accepted.
   */
  lemma {:induction false} PackFailsOnFirstUnplaceable(gs: seq<Grid>, order: seq<nat>, items: seq<Item>, fits: (Grid, Item) -> bool)
    requires forall k :: 0 <= k < |order| ==> order[k] < |gs|
    ensures Pack(gs, order, items, fits).Unplaced? ==>
      exists n, before :: 0 <= n < |items| && items[n] == Pack(gs, order, items, fits).item
        && Pack(gs, order, items[..n], fits) == Packed(before)
        && |before| == |gs|
        && forall k :: 0 <= k < |order| ==> !fits(before[order[k]], items[n])
    decreases |items|
  {
    if |items| > 0 {
      var first := PlaceItem(gs, order, items[0], fits);
      PlaceItemFailsIffNoGridFits(gs, order, items[0], fits);
      if first.None? {
        assert items[..0] == [];
        assert Pack(gs, order, items[..0], fits) == Packed(gs);
      } else if Pack(gs, order, items, fits).Unplaced? {
        var gs' := first.value;
        PackFailsOnFirstUnplaceable(gs', order, items[1..], fits);
        var n, before :| 0 <= n < |items[1..]| && items[1..][n] == Pack(gs', order, items[1..], fits).item
          && Pack(gs', order, items[1..][..n], fits) == Packed(before)
          && |before| == |gs'|
          && forall k :: 0 <= k < |order| ==> !fits(before[order[k]], items[1..][n]);
        PackPrefixStep(gs, gs', order, items, n, fits);
        assert items[n + 1] == items[1..][n];
      }
    }
  }

  /** Appending an item no larger than any held item keeps a grid largest first. */
  lemma AppendKeepsLargestFirst(s: seq<Item>, it: Item)
    requires LargestFirst(s)
    requires forall x :: x in s ==> ItemSize(x) >= ItemSize(it)
    ensures LargestFirst(s + [it])
  {
    forall a, b | 0 <= a < b < |s| + 1 ensures ItemSize((s + [it])[a]) >= ItemSize((s + [it])[b]) {
      if b == |s| {
        assert s[a] in s;
      }
    }
  }

  /** The pending items after the first are largest first and no larger than the first. */
  lemma RestOfLargestFirst(items: seq<Item>)
    requires |items| > 0 && LargestFirst(items)
    ensures LargestFirst(items[1..])
    ensures forall y :: y in items[1..] ==> ItemSize(items[0]) >= ItemSize(y)
  {
    var rest := items[1..];
    forall y | y in rest ensures ItemSize(items[0]) >= ItemSize(y) {
      var j :| 0 <= j < |rest| && rest[j] == y;
      assert items[j + 1] == y;
    }
    forall i, j | 0 <= i < j < |rest| ensures ItemSize(rest[i]) >= ItemSize(rest[j]) {
      assert rest[i] == items[i + 1] && rest[j] == items[j + 1];
    }
  }

  /**
   First-fit-decreasing keeps every grid's items largest first when the grids start
   that way, every held item is at least as large as every pending item, and the
   pending items are largest first.
   */
  lemma {:induction false} PackKeepsGridsLargestFirst(gs: seq<Grid>, order: seq<nat>, items: seq<Item>, fits: (Grid, Item) -> bool)
    requires forall k :: 0 <= k < |order| ==> order[k] < |gs|
    requires LargestFirst(items)
    requires forall i :: 0 <= i < |gs| ==> LargestFirst(gs[i].items)
    requires forall i, x, y :: 0 <= i < |gs| && x in gs[i].items && y in items ==> ItemSize(x) >= ItemSize(y)
    ensures Pack(gs, order, items, fits).Packed? ==>
      forall i :: 0 <= i < |Pack(gs, order, items, fits).grids| ==> LargestFirst(Pack(gs, order, items, fits).grids[i].items)
    decreases |items|
  {
    if |items| > 0 {
      var it := items[0];
      var rest := items[1..];
      match PlaceItem(gs, order, it, fits)
      case None =>
      case Some(gs') =>
        RestOfLargestFirst(items);
        assert it in items;
        forall i | 0 <= i < |gs'| ensures LargestFirst(gs'[i].items) {
          if gs'[i] != gs[i] {
            AppendKeepsLargestFirst(gs[i].items, it);
          }
        }
        forall i, x, y | 0 <= i < |gs'| && x in gs'[i].items && y in rest ensures ItemSize(x) >= ItemSize(y) {
          assert y in items;
          if gs'[i] != gs[i] {
            assert x in gs[i].items + [it];
          }
        }
        PackKeepsGridsLargestFirst(gs', order, rest, fits);
    }
  }

  /** Empties every grid, keeping its identity and dimensions. */
  function ClearAll(gs: seq<Grid>): (r: seq<Grid>)
    ensures SameShape(r, gs)
    ensures forall i :: 0 <= i < |r| ==> r[i].items == []
    ensures AllItems(r) == []
  {
    if |gs| == 0 then [] else [Shape(gs[0])] + ClearAll(gs[1..])
  }

  /** 0, 1, ..., n - 1: the positions of n grids. */
  function Indices(n: nat): (r: seq<nat>)
    ensures |r| == n
    ensures forall k :: 0 <= k < n ==> r[k] == k
  {
    seq(n, k => k)
  }

  /** Sort key placing grid indices of smaller grids first; positions past the end never occur. */
  function IndexAreaKey(gs: seq<Grid>): nat -> real {
    (k: nat) => if k < |gs| then GridArea(gs[k]) as real else 0.0
  }

  /** A permutation of the positions 0 .. n - 1 holds only positions below n. */
  lemma PermutedIndicesInRange(r: seq<nat>, n: nat)
    requires multiset(r) == multiset(Indices(n))
    ensures forall k :: 0 <= k < |r| ==> r[k] < n
  {
    forall k | 0 <= k < |r| ensures r[k] < n {
      assert r[k] in multiset(Indices(n));
      assert r[k] in Indices(n);
    }
  }

  /**
   The order in which SortContainer tries grids (SortGrids over the container's grids),
   as positions into the container: every grid exactly once, smallest area first.
   */
  function SmallestFirstOrder(gs: seq<Grid>): (r: seq<nat>)
    ensures multiset(r) == multiset(Indices(|gs|))
    ensures forall k :: 0 <= k < |r| ==> r[k] < |gs|
    ensures forall a, b :: 0 <= a < b < |r| ==> GridArea(gs[r[a]]) <= GridArea(gs[r[b]])
  {
    var key := IndexAreaKey(gs);
    var r := SortBy(Indices(|gs|), key);
    PermutedIndicesInRange(r, |gs|);
    assert forall k :: 0 <= k < |r| ==> key(r[k]) == GridArea(gs[r[k]]) as real;
    r
  }

  /** Sort key placing larger items first. */
  function LargestFirstKey(it: Item): real {
    -(ItemSize(it) as real)
  }

  /** The container's items ordered largest first (the item sort of SortContainer). */
  function SortItemsLargestFirst(items: seq<Item>): (r: seq<Item>)
    ensures multiset(r) == multiset(items)
    ensures LargestFirst(r)
  {
    var r := SortBy(items, LargestFirstKey);
    assert forall i, j :: 0 <= i < j < |r| ==> LargestFirstKey(r[i]) <= LargestFirstKey(r[j]);
    r
  }

  /**
   The repacking step of SortContainer on a container's grids: all items taken out,
   sorted largest first, and placed into the emptied grids tried smallest first.
   */
  function RepackGrids(gs: seq<Grid>, fits: (Grid, Item) -> bool): (r: PackResult)
    ensures r.Unplaced? ==> r.item in multiset(AllItems(gs))
    ensures r.Packed? ==>
      && SameShape(r.grids, gs)
      && multiset(AllItems(r.grids)) == multiset(AllItems(gs))
      && forall i :: 0 <= i < |r.grids| ==> LargestFirst(r.grids[i].items)
  {
    var items := SortItemsLargestFirst(AllItems(gs));
    var empty := ClearAll(gs);
    var order := SmallestFirstOrder(empty);
    PackKeepsGridsLargestFirst(empty, order, items, fits);
    var r := Pack(empty, order, items, fits);
    assert r.Packed? ==> SameShape(r.grids, gs) by {
      if r.Packed? {
        forall i | 0 <= i < |r.grids| ensures Shape(r.grids[i]) == Shape(gs[i]) {
          assert Shape(r.grids[i]) == Shape(empty[i]);
        }
      }
    }
    assert r.Unplaced? ==> r.item in multiset(items);
    r
  }

  /**
   SortContainer: takes every item out, places the items largest first, each into the
   first grid (smallest first) that accepts it, and on the first item that fits nowhere
   restores the container and reports that item. A missing container is reported with
   no item.
   */
  function SortContainer(c: Option<Container>, fits: (Grid, Item) -> bool): (r: Repack)
    ensures c.None? ==> r == Repack(SortFailed(None), None)
    ensures c.Some? && r.outcome.SortFailed? ==>
      r.container == c && r.outcome.item.Some? && r.outcome.item.value in multiset(AllItems(c.value.grids))
    ensures c.Some? && r.outcome.Sorted? ==>
      r.container.Some?
      && SameShape(r.container.value.grids, c.value.grids)
      && multiset(AllItems(r.container.value.grids)) == multiset(AllItems(c.value.grids))
      && forall i :: 0 <= i < |r.container.value.grids| ==> LargestFirst(r.container.value.grids[i].items)
  {
    if c.None? then Repack(SortFailed(None), None)
    else
      match RepackGrids(c.value.grids, fits)
      case Packed(placed) => Repack(Sorted, Some(c.value.(grids := placed)))
      case Unplaced(it) => Repack(SortFailed(Some(it)), c)
  }

  /** A successful repack holds the same total item area as before. */
  lemma SortContainerConservesArea(c: Container, fits: (Grid, Item) -> bool)
    ensures SortContainer(Some(c), fits).outcome.Sorted? ==>
      SumOf(AllItems(SortContainer(Some(c), fits).container.value.grids), ItemSize) == SumOf(AllItems(c.grids), ItemSize)
  {
    var r := SortContainer(Some(c), fits);
    if r.outcome.Sorted? {
      SumOfPermutation(AllItems(r.container.value.grids), AllItems(c.grids), ItemSize);
    }
  }

  /** When the order reaches every grid, a failed pack names an item no grid accepted. */
  lemma PackFailureFitsNoGrid(gs: seq<Grid>, order: seq<nat>, items: seq<Item>, fits: (Grid, Item) -> bool)
    requires forall k :: 0 <= k < |order| ==> order[k] < |gs|
    requires forall g :: 0 <= g < |gs| ==> g in order
    requires Pack(gs, order, items, fits).Unplaced?
    ensures exists n, before :: (0 <= n < |items| && items[n] == Pack(gs, order, items, fits).item
      && Pack(gs, order, items[..n], fits) == Packed(before)
      && |before| == |gs|
      && forall g :: 0 <= g < |before| ==> !fits(before[g], items[n]))
  {
    PackFailsOnFirstUnplaceable(gs, order, items, fits);
    var n, before :| 0 <= n < |items| && items[n] == Pack(gs, order, items, fits).item
      && Pack(gs, order, items[..n], fits) == Packed(before)
      && |before| == |gs|
      && forall k :: 0 <= k < |order| ==> !fits(before[order[k]], items[n]);
    forall g | 0 <= g < |before| ensures !fits(before[g], items[n]) {
      assert g in order;
      var k :| 0 <= k < |order| && order[k] == g;
    }
  }

  /** The smallest-first order reaches every grid position. */
  lemma SmallestFirstOrderCoversAll(gs: seq<Grid>)
    ensures forall g :: 0 <= g < |gs| ==> g in SmallestFirstOrder(gs)
  {
    var order := SmallestFirstOrder(gs);
    forall g | 0 <= g < |gs| ensures g in order {
      assert Indices(|gs|)[g] == g;
      assert g in multiset(order);
    }
  }

  /**
   A failed repack names an item that was tried after all larger-first predecessors had
   been placed, and that then fit in none of the container's grids.
   */
  lemma RepackFailureIsUnplaceable(gs: seq<Grid>, fits: (Grid, Item) -> bool)
    ensures RepackGrids(gs, fits).Unplaced? ==>
      exists n, before :: (0 <= n < |SortItemsLargestFirst(AllItems(gs))|
      && RepackGrids(gs, fits).item == SortItemsLargestFirst(AllItems(gs))[n]
      && Pack(ClearAll(gs), SmallestFirstOrder(ClearAll(gs)), SortItemsLargestFirst(AllItems(gs))[..n], fits) == Packed(before)
      && |before| == |gs|
      && forall g :: 0 <= g < |before| ==> !fits(before[g], SortItemsLargestFirst(AllItems(gs))[n]))
  {
    if RepackGrids(gs, fits).Unplaced? {
      var empty := ClearAll(gs);
      SmallestFirstOrderCoversAll(empty);
      PackFailureFitsNoGrid(empty, SmallestFirstOrder(empty), SortItemsLargestFirst(AllItems(gs)), fits);
    }
  }
}
