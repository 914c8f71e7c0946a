/** One package on its own: the validator, the searched space and the allocator's unit test
    agree on whether a vehicle can take it; and no load that can be carried fails the
    allocator's test for a set of units. */
module OnePackage {
  import opened Prelude
  import opened Geometry
  import opened Replay
  import opened UnloadSafety
  import opened LayoutSpace
  import opened LoadCycles
  import opened SpatialValidator
  import FloorArea
  import MapSums
  import Sorting
  import CargoAllocation

  /** The package is loaded, and then delivered or kept aboard. */
  function PlanFor(item: CargoItem, delivered: bool): seq<Stop> {
    [Stop([item], [])] + if delivered then [Stop([], [item.id])] else []
  }

  /** It is not too high or heavy, and stands somewhere on the empty floor, turned or not. */
  ghost predicate FitsAlone(f: Floor, item: CargoItem) {
    && item.height <= f.height && item.weight <= f.payload
    && exists r: Rect :: item.Matches(r) && InBounds(f, r)
  }

  lemma PlanForIsValid(item: CargoItem, delivered: bool)
    requires item.Valid()
    ensures ValidPlan(PlanFor(item, delivered))
  {
  }

  lemma StepsForPlan(item: CargoItem, delivered: bool) returns (steps: UnloadSteps)
    ensures UnloadStepsFor(PlanFor(item, delivered), steps)
    ensures item.id in steps ==> steps[item.id] == 1
  {
    var plan := PlanFor(item, delivered);
    steps := if delivered then map[item.id := 1] else map[];
    if delivered {
      assert plan[1].unloads == [item.id];
      assert FirstUnloadAt(plan, item.id, 1);
    }
  }

  lemma NothingAboard()
    ensures var empty: Layout := map[]; Rects(empty) == {} && TotalWeight(empty) == 0
  {
    var empty: Layout := map[];
    assert Weights(empty) == map[];
  }

  /** Pushed into the corner by the cab, the package stands and can get out. */
  lemma CornerIsAccepted(pr: Problem, item: CargoItem, r: Rect, corner: Rect)
    requires pr.Valid() && item.Valid() && item.Matches(r) && InBounds(pr.f, r)
    requires corner == Rect(0, 0, r.length, r.width)
    ensures Accepts(pr, false, [item], 0, map[], corner)
  {
    NothingAboard();
    CandidateIff(pr.f, item, {}, corner);
    UnobstructedEscapes(pr.f, corner);
  }

  lemma LoadsAlone(pr: Problem, item: CargoItem, corner: Rect, final: Layout)
    requires pr.Valid() && |pr.stops| > 0 && pr.stops[0].loads == [item]
    requires Accepts(pr, false, [item], 0, map[], corner) && final == map[item.id := Place(item, corner)]
    requires item.height <= pr.f.height && item.weight <= pr.f.payload
    requires item.id in pr.steps ==> pr.steps[item.id] == 1
    ensures Loads(pr, false, 0, LoadOrder(pr, 0), 0, map[], final)
  {
    hide Accepts, Problem.Valid;
    NothingAboard();
    OneIsInOrder(pr, item);
    var empty: Layout := map[];
    assert empty[item.id := Place(item, corner)] == final;
    assert CanTake(pr, 0, item, empty);
  }

  lemma OneIsInOrder(pr: Problem, item: CargoItem)
    requires |pr.stops| > 0 && pr.stops[0].loads == [item]
    ensures LoadOrder(pr, 0) == [item]
  {
    assert [item][1..] == [];
  }

  lemma AloneCanLeave(f: Floor, item: CargoItem, corner: Rect, layout: Layout)
    requires corner.Solid() && InBounds(f, corner) && layout == map[item.id := Place(item, corner)]
    ensures IsUnloadOrder(f, layout, [item.id]) && layout - {item.id} == map[]
  {
    assert Obstacles(layout, item.id) == {};
    UnobstructedEscapes(f, corner);
    assert [item.id][1..] == [];
  }

  lemma FittingIsSolvable(f: Floor, item: CargoItem, delivered: bool)
    requires ValidFloor(f) && item.Valid() && FitsAlone(f, item)
    ensures CycleSolvable(f, PlanFor(item, delivered))
  {
    hide Loads, IsUnloadOrder, Accepts, UnloadStepsFor;
    var plan := PlanFor(item, delivered);
    var steps := StepsForPlan(item, delivered);
    var pr := Problem(f, plan, steps);
    PlanForIsValid(item, delivered);
    var r: Rect :| item.Matches(r) && InBounds(f, r);
    var corner := Rect(0, 0, r.length, r.width);
    var loaded: Layout := map[item.id := Place(item, corner)];
    CornerIsAccepted(pr, item, r, corner);
    LoadsAlone(pr, item, corner, loaded);
    AloneCanLeave(f, item, corner, loaded);
    var run := [Step(loaded, [])] + if delivered then [Step(map[], [item.id])] else [];
    RunOfPlan(pr, item, delivered, loaded, run);
  }

  lemma RunOfPlan(pr: Problem, item: CargoItem, delivered: bool, loaded: Layout, run: seq<Step>)
    requires pr.stops == PlanFor(item, delivered)
    requires run == [Step(loaded, [])] + if delivered then [Step(map[], [item.id])] else []
    requires Loads(pr, false, 0, LoadOrder(pr, 0), 0, map[], loaded)
    requires IsUnloadOrder(pr.f, loaded, [item.id]) && loaded - {item.id} == map[]
    ensures SearchSteps(pr, false, 0, map[], run)
  {
    var empty: Layout := map[];
    assert empty - Elements([]) == empty;
    assert SearchStop(pr, false, 0, empty, run[0]);
    if delivered {
      assert LoadOrder(pr, 1) == [];
      assert Elements([item.id]) == {item.id};
      assert SearchStop(pr, false, 1, loaded, run[1]);
      assert run[1..] == [run[1]] && run[1..][1..] == [];
      assert SearchSteps(pr, false, 2, empty, []);
      assert SearchSteps(pr, false, 1, loaded, run[1..]);
    } else {
      assert run[1..] == [];
    }
  }

  lemma ReplayedFits(f: Floor, item: CargoItem, delivered: bool)
    requires CanReplay(f, PlanFor(item, delivered))
    ensures FitsAlone(f, item)
  {
    hide LegalReplay, CanEnter;
    var plan := PlanFor(item, delivered);
    var steps: seq<Step> :| LegalReplay(f, plan, map[], steps);
    assert LegalStop(f, plan[0], map[], steps[0]) by { FirstStopIsLegal(f, plan, steps); }
    var empty: Layout := map[];
    var before := empty - Elements(steps[0].unloadOrder);
    assert before == empty;
    NothingAboard();
    var order: seq<CargoItem> :| Permutation(order, [item]) && LegalLoads(f, before, order, steps[0].layout);
    PermutationElements(order, [item]);
    assert order[0] in Elements(order);
  }

  lemma FirstStopIsLegal(f: Floor, stops: seq<Stop>, steps: seq<Step>)
    requires stops != [] && LegalReplay(f, stops, map[], steps)
    ensures steps != [] && LegalStop(f, stops[0], map[], steps[0])
  {
  }

  /** Nothing is missed for a package on its own: the plan can be executed exactly when the
      searched space has a run for it, and exactly when the package fits the empty vehicle. */
  lemma OnePackageIff(f: Floor, item: CargoItem, delivered: bool)
    requires ValidFloor(f) && item.Valid()
    ensures CycleSolvable(f, PlanFor(item, delivered)) <==> FitsAlone(f, item)
    ensures CanReplay(f, PlanFor(item, delivered)) <==> FitsAlone(f, item)
  {
    hide CycleSolvable, CanReplay, FitsAlone;
    PlanForIsValid(item, delivered);
    if FitsAlone(f, item) {
      FittingIsSolvable(f, item, delivered);
    }
    if CycleSolvable(f, PlanFor(item, delivered)) {
      SolvableSpaceIsSound(f, PlanFor(item, delivered));
    }
    if CanReplay(f, PlanFor(item, delivered)) {
      ReplayedFits(f, item, delivered);
    }
  }

  /** The plan is never cut in two: at most an empty cycle follows it. */
  lemma OneCycleOfPlan(item: CargoItem, delivered: bool, cycles: seq<seq<Stop>>)
    requires IsSplit(PlanFor(item, delivered), cycles)
    ensures forall c | 0 <= c < |cycles| :: cycles[c] == PlanFor(item, delivered) || cycles[c] == []
  {
    hide CleanAt, Tight;
    var plan := PlanFor(item, delivered);
    assert Flatten(cycles) == plan;
    if |cycles| == 1 {
      OneCycle(cycles);
    } else {
      var first, rest := cycles[0], cycles[1..];
      assert plan == first + Flatten(rest);
      assert first != [] && Aboard(first, {}) == {};
      LoadedIsAboard(item);
      assert first != [plan[0]] && first[0] == plan[0];
      assert first == plan;
      NothingAfter(rest);
      assert forall c | 0 < c < |cycles| :: cycles[c] == rest[c - 1];
    }
  }

  lemma LoadedIsAboard(item: CargoItem)
    ensures Aboard([Stop([item], [])], {}) != {}
  {
    assert [Stop([item], [])][1..] == [];
    assert item.id in LoadIds([item]);
  }

  lemma {:induction false} NothingAfter(cycles: seq<seq<Stop>>)
    requires Flatten(cycles) == []
    ensures forall c | 0 <= c < |cycles| :: cycles[c] == []
  {
    if cycles == [] {
    } else {
      assert |Flatten(cycles)| == |cycles[0]| + |Flatten(cycles[1..])|;
      NothingAfter(cycles[1..]);
    }
  }

  lemma NothingToLoadIsSolvable(f: Floor)
    ensures CycleSolvable(f, [])
  {
    var steps: UnloadSteps := map[];
    assert UnloadStepsFor([], steps);
    assert SearchSteps(Problem(f, [], steps), false, 0, map[], []);
  }

  /** So every verdict within the budget on a package by itself is right: a valid one
      means that it fits, and an invalid one that it does not. */
  lemma VerdictOnOnePackage(f: Floor, item: CargoItem, delivered: bool, result: ValidationResult,
      cycles: seq<seq<Stop>>)
    requires ValidFloor(f) && item.Valid() && IsSplit(PlanFor(item, delivered), cycles)
    requires result.Valid? ==> CanReplay(f, PlanFor(item, delivered))
    requires result.Invalid? && !result.limitReached ==> exists c | 0 <= c < |cycles| :: !CycleSolvable(f, cycles[c])
    ensures result.Valid? ==> FitsAlone(f, item)
    ensures result.Invalid? && !result.limitReached ==> !FitsAlone(f, item)
  {
    hide CycleSolvable, CanReplay, FitsAlone, IsSplit;
    OnePackageIff(f, item, delivered);
    OneCycleOfPlan(item, delivered, cycles);
    NothingToLoadIsSolvable(f);
  }

  // ---------- the allocator's test for one unit ----------

  function FloorOf(v: CargoAllocation.Vehicle): Floor {
    Floor(v.length, v.width, v.height, v.payload)
  }

  function ItemOf(c: CargoAllocation.Cargo, order: nat): CargoItem {
    CargoItem(c.id, order, c.length, c.width, c.height, c.weight, c.canRotate)
  }

  /** The allocator lets a vehicle take a unit exactly when the unit could be carried there
      alone, by the validator's rules. */
  lemma UnitTestAgrees(c: CargoAllocation.Cargo, v: CargoAllocation.Vehicle, order: nat, delivered: bool)
    requires c.Valid() && v.Valid()
    ensures CargoAllocation.CargoFitsVehicle(c, v) <==> CanReplay(FloorOf(v), PlanFor(ItemOf(c, order), delivered))
  {
    hide CanReplay, CycleSolvable;
    var f, item := FloorOf(v), ItemOf(c, order);
    OnePackageIff(f, item, delivered);
    if c.length <= v.length && c.width <= v.width {
      var r := Rect(0, 0, c.length, c.width);
      assert item.Matches(r) && InBounds(f, r);
    }
    if c.canRotate && c.width <= v.length && c.length <= v.width {
      var r := Rect(0, 0, c.width, c.length);
      assert item.Matches(r) && InBounds(f, r);
    }
  }

  // ---------- the allocator's test for a whole load ----------

  function ItemsOf(cargo: seq<CargoAllocation.Cargo>, order: nat): (items: seq<CargoItem>)
    ensures |items| == |cargo| && forall k | 0 <= k < |cargo| :: items[k] == ItemOf(cargo[k], order)
  {
    seq(|cargo|, k requires 0 <= k < |cargo| => ItemOf(cargo[k], order))
  }

  /** What has been loaded adds up, and each package would have fitted alone. */
  lemma {:induction false} LegalLoadsAddUp(f: Floor, layout: Layout, loads: seq<CargoItem>, after: Layout)
    requires GoodLayout(f, layout) && LegalLoads(f, layout, loads, after)
    requires forall item | item in loads :: item.Valid()
    ensures TotalWeight(after) == TotalWeight(layout) + LoadWeight(loads)
    ensures TotalArea(after) == TotalArea(layout) + LoadArea(loads)
    ensures forall item | item in loads :: FitsAlone(f, item)
    decreases |loads|
  {
    if loads == [] {
    } else {
      hide LegalLoads, GoodLayout, FitsAlone, TotalWeight, TotalArea;
      FirstLoadAddsUp(f, layout, loads, after);
      var id, next := FirstLoad(f, layout, loads, after);
      assert loads == [loads[0]] + loads[1..];
      LegalLoadsAddUp(f, next, loads[1..], after);
    }
  }

  lemma FirstLoadAddsUp(f: Floor, layout: Layout, loads: seq<CargoItem>, after: Layout)
    requires GoodLayout(f, layout) && LegalLoads(f, layout, loads, after) && loads != []
    ensures var item := loads[0];
            && item.id in after && FitsAlone(f, item)
            && TotalWeight(layout[item.id := after[item.id]]) == TotalWeight(layout) + item.weight
            && TotalArea(layout[item.id := after[item.id]]) == TotalArea(layout) + item.length * item.width
  {
    hide CanEnter;
    var item := loads[0];
    LoadedTotals(layout, item.id, after[item.id]);
    MatchingArea(item, after[item.id].rect);
    MapSums.SumNonNegative(Weights(layout));
  }

  lemma {:induction false} SameTotals(cargo: seq<CargoAllocation.Cargo>, order: nat)
    ensures LoadWeight(ItemsOf(cargo, order)) == Sorting.SumBy(cargo, CargoAllocation.WeightOf)
    ensures LoadArea(ItemsOf(cargo, order)) == Sorting.SumBy(cargo, CargoAllocation.AreaOf)
  {
    if cargo == [] {
    } else {
      SameTotals(cargo[1..], order);
      assert ItemsOf(cargo, order)[1..] == ItemsOf(cargo[1..], order);
    }
  }

  /** The allocator turns down no load that could be carried: if a vehicle can be loaded
      with all the units at one stop, they pass its test. */
  lemma LoadableSetFits(cargo: seq<CargoAllocation.Cargo>, v: CargoAllocation.Vehicle, order: nat)
    requires v.Valid() && forall c | c in cargo :: c.Valid()
    requires CanReplay(FloorOf(v), [Stop(ItemsOf(cargo, order), [])])
    ensures CargoAllocation.CargoSetFitsVehicle(cargo, v)
  {
    hide LegalLoads, GoodLayout, FitsAlone, TotalWeight, TotalArea, LoadWeight, LoadArea, CanReplay;
    var f, items := FloorOf(v), ItemsOf(cargo, order);
    var loaded, after := LoadedAtOnce(f, items);
    PermutationElements(loaded, items);
    assert forall item :: item in loaded <==> item in Elements(loaded);
    assert forall item :: item in items <==> item in Elements(items);
    forall item | item in items
      ensures item.Valid()
    {
      var k :| 0 <= k < |items| && items[k] == item;
      assert cargo[k] in cargo;
    }
    EmptyTotals(f);
    LegalLoadsAddUp(f, map[], loaded, after);
    LegalLoadsKeep(f, map[], loaded, after);
    LoadFitsFloor(f, after);
    SameSums(loaded, items);
    SameTotals(cargo, order);
    forall k | 0 <= k < |cargo|
      ensures CargoAllocation.CargoFitsVehicle(cargo[k], v)
    {
      assert cargo[k] in cargo && items[k] in items;
      OnePackageIff(f, items[k], false);
      UnitTestAgrees(cargo[k], v, order, false);
    }
  }

  lemma LoadedAtOnce(f: Floor, items: seq<CargoItem>) returns (loaded: seq<CargoItem>, after: Layout)
    requires CanReplay(f, [Stop(items, [])])
    ensures Permutation(loaded, items) && LegalLoads(f, map[], loaded, after)
  {
    hide LegalLoads;
    var stops := [Stop(items, [])];
    var steps: seq<Step> :| LegalReplay(f, stops, map[], steps);
    var empty: Layout := map[];
    assert LegalStop(f, stops[0], empty, steps[0]) by { FirstStopIsLegal(f, stops, steps); }
    assert empty - Elements(steps[0].unloadOrder) == empty;
    after := steps[0].layout;
    loaded :| Permutation(loaded, items) && LegalLoads(f, empty, loaded, after);
  }

  lemma EmptyTotals(f: Floor)
    requires f.payload >= 0
    ensures var empty: Layout := map[]; GoodLayout(f, empty) && TotalWeight(empty) == 0 && TotalArea(empty) == 0
  {
    var empty: Layout := map[];
    EmptyLayoutGood(f);
    assert Weights(empty) == map[] && Areas(empty) == map[];
  }

  lemma LoadFitsFloor(f: Floor, layout: Layout)
    requires ValidFloor(f) && GoodLayout(f, layout)
    ensures TotalWeight(layout) <= f.payload && TotalArea(layout) <= f.length * f.width
  {
    FloorArea.AreaFitsFloor(f, layout);
  }

  lemma SameSums(a: seq<CargoItem>, b: seq<CargoItem>)
    requires Permutation(a, b)
    ensures LoadWeight(a) == LoadWeight(b) && LoadArea(a) == LoadArea(b)
  {
    Sorting.SumByMultiset(a, b, (item: CargoItem) => item.weight);
    Sorting.SumByMultiset(a, b, (item: CargoItem) => item.length * item.width);
  }
}
