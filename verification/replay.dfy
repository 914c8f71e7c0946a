/** What it means for a fixed pickup/delivery sequence to be executed on a truck
    floor: packages are never stacked or moved while aboard, each one enters and
    leaves by a slide through free floor, and the payload is respected. */
module Replay {
  import opened Prelude
  import opened Geometry
  import opened MapSums

  type ItemId = nat

  datatype CargoItem = CargoItem(
    id: ItemId, orderId: nat, length: int, width: int, height: int, weight: int, canRotate: bool)
  {
    predicate Valid() {
      length > 0 && width > 0 && height > 0 && weight > 0
    }

    /** The footprint has the package's extent, turned or not. */
    predicate Matches(r: Rect) {
      || (r.length == length && r.width == width)
      || (canRotate && r.length == width && r.width == length)
    }
  }

  datatype Placed = Placed(orderId: nat, rect: Rect, height: int, weight: int)

  /** The packages aboard by identifier. */
  type Layout = map<ItemId, Placed>

  datatype Stop = Stop(loads: seq<CargoItem>, unloads: seq<ItemId>)

  function Place(item: CargoItem, r: Rect): Placed {
    Placed(item.orderId, r, item.height, item.weight)
  }

  function LoadIds(loads: seq<CargoItem>): set<ItemId> {
    set item | item in loads :: item.id
  }

  /** The footprints of the given packages. */
  function RectsOf(layout: Layout, ids: set<ItemId>): set<Rect> {
    set i | i in layout && i in ids :: layout[i].rect
  }

  function Rects(layout: Layout): set<Rect> {
    set i | i in layout :: layout[i].rect
  }

  /** Everything aboard except one package. */
  function Obstacles(layout: Layout, id: ItemId): set<Rect> {
    set i | i in layout && i != id :: layout[i].rect
  }

  ghost function Weights(layout: Layout): map<ItemId, int> {
    map i | i in layout :: layout[i].weight
  }

  ghost function Areas(layout: Layout): map<ItemId, int> {
    map i | i in layout :: layout[i].rect.Area()
  }

  ghost function TotalWeight(layout: Layout): int {
    Sum(Weights(layout))
  }

  ghost function TotalArea(layout: Layout): int {
    Sum(Areas(layout))
  }

  ghost predicate NoOverlap(layout: Layout) {
    forall i, j | i in layout && j in layout && i != j :: !IsOverlap(layout[i].rect, layout[j].rect)
  }

  /** In bounds, nothing stacked, weights positive and within the payload. */
  ghost predicate GoodLayout(f: Floor, layout: Layout) {
    && (forall i | i in layout :: layout[i].rect.Solid() && InBounds(f, layout[i].rect) && layout[i].weight > 0)
    && NoOverlap(layout)
    && TotalWeight(layout) <= f.payload
  }

  predicate ValidPlan(stops: seq<Stop>) {
    forall k | 0 <= k < |stops| :: forall item | item in stops[k].loads :: item.Valid()
  }

  // ---------- unloading ----------

  /** The package is aboard and has a clear path past everything else aboard. */
  ghost predicate CanLeave(f: Floor, layout: Layout, id: ItemId) {
    id in layout && CanEscape(f, layout[id].rect, Obstacles(layout, id))
  }

  /** Taking the packages off one by one in this order, each leaves by a clear path. */
  ghost predicate IsUnloadOrder(f: Floor, layout: Layout, order: seq<ItemId>) {
    order != [] ==>
      && CanLeave(f, layout, order[0])
      && IsUnloadOrder(f, layout - {order[0]}, order[1..])
  }

  ghost predicate CanUnload(f: Floor, layout: Layout, ids: set<ItemId>) {
    exists order: seq<ItemId> :: IsUnloadOrder(f, layout, order) && Elements(order) == ids
  }

  lemma {:induction false} UnloadOrderDistinct(f: Floor, layout: Layout, order: seq<ItemId>)
    requires IsUnloadOrder(f, layout, order)
    ensures Elements(order) <= layout.Keys
    ensures forall j, k | 0 <= j < k < |order| :: order[j] != order[k]
  {
    if order == [] {
    } else {
      UnloadOrderDistinct(f, layout - {order[0]}, order[1..]);
      forall j, k | 0 <= j < k < |order|
        ensures order[j] != order[k]
      {
        assert order[k] == order[1..][k - 1] && order[k] in Elements(order[1..]);
        if j > 0 { assert order[1..][j - 1] != order[1..][k - 1]; }
      }
      assert Elements(order) == {order[0]} + Elements(order[1..]);
    }
  }

  // ---------- loading ----------

  /** Bringing the items in one by one, in this order, ends with layout `after`. */
  ghost predicate LegalLoads(f: Floor, layout: Layout, loads: seq<CargoItem>, after: Layout)
    decreases |loads|
  {
    if loads == [] then after == layout
    else
      var item := loads[0];
      && item.id !in layout
      && item.id in after
      && var r := after[item.id].rect;
         && after[item.id] == Place(item, r)
         && item.Matches(r)
         && item.height <= f.height
         && InBounds(f, r) && Clear(r, Rects(layout))
         && CanEnter(f, r, Rects(layout))
         && TotalWeight(layout) + item.weight <= f.payload
         && LegalLoads(f, layout[item.id := after[item.id]], loads[1..], after)
  }

  ghost predicate Permutation<T>(a: seq<T>, b: seq<T>) {
    multiset(a) == multiset(b)
  }

  ghost predicate CanLoad(f: Floor, layout: Layout, loads: seq<CargoItem>, after: Layout) {
    exists order: seq<CargoItem> :: Permutation(order, loads) && LegalLoads(f, layout, order, after)
  }

  // ---------- stops and plans ----------

  /** The floor after a stop, with the order in which packages left. */
  datatype Step = Step(layout: Layout, unloadOrder: seq<ItemId>)

  ghost predicate LegalStop(f: Floor, stop: Stop, before: Layout, step: Step) {
    && Permutation(step.unloadOrder, stop.unloads)
    && IsUnloadOrder(f, before, step.unloadOrder)
    && CanLoad(f, before - Elements(step.unloadOrder), stop.loads, step.layout)
  }

  /** The floor once these steps are done. */
  function LayoutAfter(start: Layout, steps: seq<Step>): Layout {
    if steps == [] then start else steps[|steps| - 1].layout
  }

  ghost predicate LegalReplay(f: Floor, stops: seq<Stop>, start: Layout, steps: seq<Step>)
    decreases |stops|
  {
    && |steps| == |stops|
    && (stops != [] ==>
          && LegalStop(f, stops[0], start, steps[0])
          && LegalReplay(f, stops[1..], steps[0].layout, steps[1..]))
  }

  ghost predicate CanReplayFrom(f: Floor, stops: seq<Stop>, start: Layout) {
    exists steps: seq<Step> :: LegalReplay(f, stops, start, steps)
  }

  /** The plan can be executed, starting with an empty truck. */
  ghost predicate CanReplay(f: Floor, stops: seq<Stop>) {
    CanReplayFrom(f, stops, map[])
  }

  // ---------- what every legal replay keeps ----------

  lemma PermutationElements<T>(a: seq<T>, b: seq<T>)
    requires Permutation(a, b)
    ensures Elements(a) == Elements(b) && |a| == |b|
  {
    forall x ensures x in a <==> x in b {
      assert x in a <==> x in multiset(a);
      assert x in b <==> x in multiset(b);
    }
    assert |multiset(a)| == |a| && |multiset(b)| == |b|;
  }

  lemma ClearOfAll(layout: Layout, r: Rect, i: ItemId)
    requires Clear(r, Rects(layout)) && i in layout
    ensures !IsOverlap(r, layout[i].rect)
  {
    assert layout[i].rect in Rects(layout);
  }

  lemma LoadedTotals(layout: Layout, id: ItemId, p: Placed)
    requires id !in layout
    ensures TotalWeight(layout[id := p]) == TotalWeight(layout) + p.weight
    ensures TotalArea(layout[id := p]) == TotalArea(layout) + p.rect.Area()
  {
    assert Weights(layout[id := p]) == Weights(layout)[id := p.weight];
    SumInsert(Weights(layout), id, p.weight);
    assert Areas(layout[id := p]) == Areas(layout)[id := p.rect.Area()];
    SumInsert(Areas(layout), id, p.rect.Area());
  }

  lemma LoadedNoOverlap(layout: Layout, id: ItemId, p: Placed)
    requires NoOverlap(layout) && id !in layout && Clear(p.rect, Rects(layout))
    ensures NoOverlap(layout[id := p])
  {
    forall i | i in layout
      ensures !IsOverlap(p.rect, layout[i].rect)
    {
      ClearOfAll(layout, p.rect, i);
    }
  }

  lemma LoadedLayoutGood(f: Floor, layout: Layout, item: CargoItem, r: Rect)
    requires GoodLayout(f, layout) && item.Valid() && item.Matches(r)
    requires item.id !in layout && InBounds(f, r) && Clear(r, Rects(layout))
    requires TotalWeight(layout) + item.weight <= f.payload
    ensures GoodLayout(f, layout[item.id := Place(item, r)])
  {
    LoadedTotals(layout, item.id, Place(item, r));
    LoadedNoOverlap(layout, item.id, Place(item, r));
  }

  lemma UnloadedLayoutGood(f: Floor, layout: Layout, ids: set<ItemId>)
    requires GoodLayout(f, layout)
    ensures GoodLayout(f, layout - ids)
    ensures TotalWeight(layout - ids) <= TotalWeight(layout)
  {
    assert Weights(layout - ids) == Weights(layout) - ids;
    SumSubmap(Weights(layout), ids);
  }

  lemma {:induction false} LegalLoadsKeep(f: Floor, layout: Layout, loads: seq<CargoItem>, after: Layout)
    requires GoodLayout(f, layout) && LegalLoads(f, layout, loads, after)
    requires forall item | item in loads :: item.Valid()
    ensures GoodLayout(f, after)
    ensures after.Keys == layout.Keys + LoadIds(loads) && layout.Keys !! LoadIds(loads)
    ensures forall i | i in layout :: after[i] == layout[i]
    decreases |loads|
  {
    if loads == [] {
    } else {
      hide GoodLayout, LegalLoads, LoadIds, CargoItem.Valid;
      var id, next := FirstLoad(f, layout, loads, after);
      LegalLoadsKeep(f, next, loads[1..], after);
      LoadIdsFirst(loads);
      AfterFirstLoad(layout, id, LoadIds(loads[1..]), after);
    }
  }

  lemma LoadIdsFirst(loads: seq<CargoItem>)
    requires loads != []
    ensures LoadIds(loads) == {loads[0].id} + LoadIds(loads[1..])
  {
    assert loads == [loads[0]] + loads[1..];
  }

  lemma AfterFirstLoad(layout: Layout, id: ItemId, rest: set<ItemId>, after: Layout)
    requires id !in layout && id in after
    requires var next := layout[id := after[id]];
             after.Keys == next.Keys + rest && next.Keys !! rest && forall i | i in next :: after[i] == next[i]
    ensures after.Keys == layout.Keys + ({id} + rest) && layout.Keys !! {id} + rest
    ensures forall i | i in layout :: after[i] == layout[i]
  {
    var next := layout[id := after[id]];
    assert next.Keys == layout.Keys + {id};
    assert forall i | i in layout :: i in next && next[i] == layout[i];
  }

  lemma FirstLoad(f: Floor, layout: Layout, loads: seq<CargoItem>, after: Layout) returns (id: ItemId, next: Layout)
    requires GoodLayout(f, layout) && LegalLoads(f, layout, loads, after) && loads != []
    requires forall item | item in loads :: item.Valid()
    ensures id == loads[0].id && id !in layout && id in after && next == layout[id := after[id]]
    ensures GoodLayout(f, next) && LegalLoads(f, next, loads[1..], after)
  {
    var item := loads[0];
    id, next := item.id, layout[item.id := after[item.id]];
    LoadedLayoutGood(f, layout, item, after[item.id].rect);
  }

  /** One stop of any legal replay: the floor stays legal, exactly the declared
      packages leave and arrive, and what stays aboard is not moved. */
  lemma LegalStopKeeps(f: Floor, stop: Stop, before: Layout, step: Step)
    requires GoodLayout(f, before) && LegalStop(f, stop, before, step)
    requires forall item | item in stop.loads :: item.Valid()
    ensures GoodLayout(f, step.layout)
    ensures Elements(stop.unloads) <= before.Keys
    ensures step.layout.Keys == before.Keys - Elements(stop.unloads) + LoadIds(stop.loads)
    ensures forall i | i in before && i !in Elements(stop.unloads) ::
              i in step.layout && step.layout[i] == before[i]
  {
    var leaving := Elements(step.unloadOrder);
    PermutationElements(step.unloadOrder, stop.unloads);
    UnloadOrderDistinct(f, before, step.unloadOrder);
    UnloadedLayoutGood(f, before, leaving);
    var order: seq<CargoItem> :|
      Permutation(order, stop.loads) && LegalLoads(f, before - leaving, order, step.layout);
    PermutationElements(order, stop.loads);
    assert forall item :: item in order <==> item in Elements(order);
    assert forall item :: item in stop.loads <==> item in Elements(stop.loads);
    LegalLoadsKeep(f, before - leaving, order, step.layout);
    assert LoadIds(order) == LoadIds(stop.loads);
  }

  lemma EmptyLayoutGood(f: Floor)
    requires f.payload >= 0
    ensures GoodLayout(f, map[])
  {
    assert Weights(map[]) == map[];
  }

  lemma ValidRest(stops: seq<Stop>)
    requires ValidPlan(stops) && stops != []
    ensures ValidPlan(stops[1..]) && forall item | item in stops[0].loads :: item.Valid()
  {
  }

  /** Every floor of a legal replay is legal. */
  lemma {:induction false} ReplayKeepsLayoutsGood(f: Floor, stops: seq<Stop>, start: Layout, steps: seq<Step>)
    requires ValidPlan(stops) && GoodLayout(f, start) && LegalReplay(f, stops, start, steps)
    ensures forall k | 0 <= k < |steps| :: GoodLayout(f, steps[k].layout)
    decreases |stops|
  {
    if stops == [] {
    } else {
      ValidRest(stops);
      LegalStopKeeps(f, stops[0], start, steps[0]);
      ReplayKeepsLayoutsGood(f, stops[1..], steps[0].layout, steps[1..]);
      forall k | 0 <= k < |steps|
        ensures GoodLayout(f, steps[k].layout)
      {
        if k > 0 { assert steps[k] == steps[1..][k - 1]; }
      }
    }
  }

  /** A package aboard that none of the stops unloads is still aboard, where it was. */
  lemma {:induction false} ReplayKeepsPosition(f: Floor, stops: seq<Stop>, start: Layout, steps: seq<Step>, i: ItemId)
    requires ValidPlan(stops) && GoodLayout(f, start) && LegalReplay(f, stops, start, steps)
    requires i in start && forall stop | stop in stops :: i !in stop.unloads
    ensures i in LayoutAfter(start, steps) && LayoutAfter(start, steps)[i] == start[i]
    decreases |stops|
  {
    if stops == [] {
    } else {
      ValidRest(stops);
      LegalStopKeeps(f, stops[0], start, steps[0]);
      assert stops[0] in stops;
      ReplayKeepsPosition(f, stops[1..], steps[0].layout, steps[1..], i);
    }
  }

  /** The packages aboard after the stops, from the declarations alone. */
  function Aboard(stops: seq<Stop>, start: set<ItemId>): set<ItemId>
    decreases |stops|
  {
    if stops == [] then start
    else Aboard(stops[1..], start - Elements(stops[0].unloads) + LoadIds(stops[0].loads))
  }

  lemma {:induction false} ReplayAboard(f: Floor, stops: seq<Stop>, start: Layout, steps: seq<Step>)
    requires ValidPlan(stops) && GoodLayout(f, start) && LegalReplay(f, stops, start, steps)
    ensures LayoutAfter(start, steps).Keys == Aboard(stops, start.Keys)
    decreases |stops|
  {
    if stops == [] {
    } else {
      ValidRest(stops);
      LegalStopKeeps(f, stops[0], start, steps[0]);
      ReplayAboard(f, stops[1..], steps[0].layout, steps[1..]);
    }
  }

  // ---------- joining and cutting replays ----------

  lemma {:induction false} ReplaysJoin(f: Floor, first: seq<Stop>, second: seq<Stop>, all: seq<Stop>, start: Layout,
      a: seq<Step>, b: seq<Step>, steps: seq<Step>)
    requires all == first + second && steps == a + b
    requires LegalReplay(f, first, start, a)
    requires LegalReplay(f, second, LayoutAfter(start, a), b)
    ensures LegalReplay(f, all, start, steps)
    decreases |first|
  {
    hide LegalStop;
    if first == [] {
      assert a == [] && all == second && steps == b;
    } else {
      assert LayoutAfter(a[0].layout, a[1..]) == LayoutAfter(start, a);
      assert all[1..] == first[1..] + second && steps[1..] == a[1..] + b;
      ReplaysJoin(f, first[1..], second, all[1..], a[0].layout, a[1..], b, steps[1..]);
    }
  }

  lemma {:induction false} ReplayCuts(f: Floor, first: seq<Stop>, second: seq<Stop>, start: Layout, steps: seq<Step>)
    requires LegalReplay(f, first + second, start, steps)
    ensures LegalReplay(f, first, start, steps[..|first|])
    ensures LegalReplay(f, second, LayoutAfter(start, steps[..|first|]), steps[|first|..])
    decreases |first|
  {
    var n := |first|;
    if first == [] {
      assert first + second == second && steps[n..] == steps;
    } else {
      assert (first + second)[1..] == first[1..] + second;
      ReplayCuts(f, first[1..], second, steps[0].layout, steps[1..]);
      assert steps[1..][..n - 1] == steps[..n][1..];
      assert steps[1..][n - 1..] == steps[n..];
    }
  }

  lemma EmptyAfter(f: Floor, stops: seq<Stop>, steps: seq<Step>)
    requires f.payload >= 0 && ValidPlan(stops) && LegalReplay(f, stops, map[], steps)
    requires Aboard(stops, {}) == {}
    ensures LayoutAfter(map[], steps) == map[]
  {
    EmptyLayoutGood(f);
    var empty: Layout := map[];
    assert empty.Keys == {};
    ReplayAboard(f, stops, empty, steps);
  }

  /** Cutting a plan where nothing is aboard loses and adds nothing. */
  lemma EmptyBoundarySplits(f: Floor, first: seq<Stop>, second: seq<Stop>)
    requires f.payload >= 0 && ValidPlan(first) && ValidPlan(second)
    requires Aboard(first, {}) == {}
    ensures CanReplay(f, first + second) <==> CanReplay(f, first) && CanReplay(f, second)
  {
    hide LegalStop;
    if CanReplay(f, first + second) {
      var steps: seq<Step> :| LegalReplay(f, first + second, map[], steps);
      ReplayCuts(f, first, second, map[], steps);
      EmptyAfter(f, first, steps[..|first|]);
    }
    if CanReplay(f, first) && CanReplay(f, second) {
      var a: seq<Step> :| LegalReplay(f, first, map[], a);
      var b: seq<Step> :| LegalReplay(f, second, map[], b);
      EmptyAfter(f, first, a);
      ReplaysJoin(f, first, second, first + second, map[], a, b, a + b);
    }
  }
}
