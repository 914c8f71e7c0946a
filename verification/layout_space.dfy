/** The space of layouts that the backtracking search explores, described without
    budgets, memoisation or repeated-layout skipping, and what holds of it. */
module LayoutSpace {
  import opened Prelude
  import opened Geometry
  import opened EscapeSearch
  import opened Replay
  import opened UnloadSafety
  import opened Sorting

  datatype Problem = Problem(f: Floor, stops: seq<Stop>, steps: UnloadSteps) {
    ghost predicate Valid() {
      && f.length > 0 && f.width > 0 && f.height > 0 && f.payload > 0
      && ValidPlan(stops)
      && UnloadStepsFor(stops, steps)
    }

    function Step(id: ItemId): nat {
      StepOf(steps, |stops|, id)
    }
  }

  // ---------- candidate placements ----------

  function Orientations(item: CargoItem): seq<(int, int)> {
    [(item.length, item.width)]
    + if item.canRotate && !Level(item.length, item.width) then [(item.width, item.length)] else []
  }

  /** Along one axis: both walls, and flush with either edge of each package aboard. */
  function AxisCandidates(extent: int, floor: int, starts: set<int>, ends: set<int>): set<int> {
    {0, floor - extent} + starts + ends + (set s | s in starts :: s - extent) + (set e | e in ends :: e - extent)
  }

  function XCandidates(f: Floor, length: int, placed: set<Rect>): set<int> {
    AxisCandidates(length, f.length, set p | p in placed :: p.x, set p | p in placed :: p.x + p.length)
  }

  function YCandidates(f: Floor, width: int, placed: set<Rect>): set<int> {
    AxisCandidates(width, f.width, set p | p in placed :: p.y, set p | p in placed :: p.y + p.width)
  }

  predicate IsCandidate(f: Floor, item: CargoItem, placed: set<Rect>, r: Rect) {
    && (r.length, r.width) in Orientations(item)
    && AtMost(r.length, f.length) && AtMost(r.width, f.width)
    && r.x in XCandidates(f, r.length, placed) && r.y in YCandidates(f, r.width, placed)
    && 0 <= r.x && AtMost(r.x + r.length, f.length)
    && 0 <= r.y && AtMost(r.y + r.width, f.width)
    && Clear(r, placed)
  }

  /** Along one axis the package touches a wall, or one of its edges is level with an edge
      of a package aboard. */
  predicate IsFlush(start: int, extent: int, floor: int, edges: set<int>) {
    start == 0 || start + extent == floor || start in edges || start + extent in edges
  }

  /** What a candidate is, whatever the list it is taken from: the package stands there in
      its own extent, turned or not, on the floor, clear of all others, and flush both ways. */
  predicate IsFlushPlacement(f: Floor, item: CargoItem, placed: set<Rect>, r: Rect) {
    && item.Matches(r) && InBounds(f, r) && Clear(r, placed)
    && IsFlush(r.x, r.length, f.length, (set p | p in placed :: p.x) + (set p | p in placed :: p.x + p.length))
    && IsFlush(r.y, r.width, f.width, (set p | p in placed :: p.y) + (set p | p in placed :: p.y + p.width))
  }

  /** The candidates are all of these placements and nothing else. */
  lemma CandidateIff(f: Floor, item: CargoItem, placed: set<Rect>, r: Rect)
    ensures IsCandidate(f, item, placed, r) <==> IsFlushPlacement(f, item, placed, r)
  {
    hide Clear;
    AxisCandidateIff(r.x, r.length, f.length, set p | p in placed :: p.x, set p | p in placed :: p.x + p.length);
    AxisCandidateIff(r.y, r.width, f.width, set p | p in placed :: p.y, set p | p in placed :: p.y + p.width);
    OrientationIff(item, r);
  }

  lemma OrientationIff(item: CargoItem, r: Rect)
    ensures (r.length, r.width) in Orientations(item) <==> item.Matches(r)
  {
  }

  lemma AxisCandidateIff(start: int, extent: int, floor: int, starts: set<int>, ends: set<int>)
    ensures start in AxisCandidates(extent, floor, starts, ends) <==> IsFlush(start, extent, floor, starts + ends)
  {
    if start + extent in starts {
      assert start in (set s | s in starts :: s - extent);
    }
    if start + extent in ends {
      assert start in (set e | e in ends :: e - extent);
    }
  }

  lemma CandidateStands(f: Floor, item: CargoItem, placed: set<Rect>, r: Rect)
    requires item.Valid() && IsCandidate(f, item, placed, r)
    ensures item.Matches(r) && r.Solid() && InBounds(f, r) && Clear(r, placed)
  {
    hide XCandidates, YCandidates, Clear;
  }

  lemma MatchingArea(item: CargoItem, r: Rect)
    requires item.Matches(r)
    ensures r.Area() == item.length * item.width
  {
  }

  // ---------- the break of symmetry between identical packages ----------

  const WEIGHT_TOLERANCE := 10 // grams

  predicate SameUnloadStep(steps: UnloadSteps, a: ItemId, b: ItemId) {
    if a in steps then b in steps && steps[a] == steps[b] else b !in steps
  }

  predicate Identical(steps: UnloadSteps, a: CargoItem, b: CargoItem) {
    && a.orderId == b.orderId
    && Level(a.length, b.length) && Level(a.width, b.width) && Level(a.height, b.height)
    && Abs(a.weight - b.weight) <= WEIGHT_TOLERANCE
    && a.canRotate == b.canRotate
    && SameUnloadStep(steps, a.id, b.id)
  }

  /** Positions compare by x, then y, then extent. */
  predicate PositionLess(a: Rect, b: Rect) {
    if a.x != b.x then a.x < b.x
    else if a.y != b.y then a.y < b.y
    else if a.length != b.length then a.length < b.length
    else a.width < b.width
  }

  /** The largest position taken by an identical package earlier in the load order. */
  function MinimumSymmetricPosition(steps: UnloadSteps, items: seq<CargoItem>, k: nat, item: CargoItem,
      layout: Layout): Option<Rect>
    requires k <= |items|
  {
    if k == 0 then None
    else
      var best := MinimumSymmetricPosition(steps, items, k - 1, item, layout);
      var predecessor := items[k - 1];
      if Identical(steps, predecessor, item) && predecessor.id in layout then
        var r := layout[predecessor.id].rect;
        if best.Some? && PositionLess(r, best.value) then best else Some(r)
      else best
  }

  predicate SymmetryRejects(steps: UnloadSteps, items: seq<CargoItem>, k: nat, layout: Layout, r: Rect)
    requires k < |items|
  {
    var least := MinimumSymmetricPosition(steps, items, k, items[k], layout);
    least.Some? && PositionLess(r, least.value)
  }

  /** Of one order, the same size to the millimetre and weight to ten grams, turnable alike,
      and leaving together. */
  ghost predicate AreTwins(steps: UnloadSteps, a: CargoItem, b: CargoItem) {
    && a.orderId == b.orderId && a.length == b.length && a.width == b.width && a.height == b.height
    && -10 <= a.weight - b.weight <= 10 && a.canRotate == b.canRotate
    && ((a.id !in steps && b.id !in steps) || (a.id in steps && b.id in steps && steps[a.id] == steps[b.id]))
  }

  /** Nearer the cab; or else nearer the left wall; or else shorter; or else narrower. */
  ghost predicate StandsBefore(a: Rect, b: Rect) {
    || a.x < b.x
    || (a.x == b.x && a.y < b.y)
    || (a.x == b.x && a.y == b.y && a.length < b.length)
    || (a.x == b.x && a.y == b.y && a.length == b.length && a.width < b.width)
  }

  ghost predicate TwinStandsBehind(steps: UnloadSteps, items: seq<CargoItem>, k: nat, item: CargoItem, layout: Layout,
      r: Rect)
    requires k <= |items|
  {
    exists j: nat :: j < k && AreTwins(steps, items[j], item) && items[j].id in layout
      && StandsBefore(r, layout[items[j].id].rect)
  }

  /** A position is refused exactly when it lies before that of a twin placed earlier; other
      packages never restrict one another. */
  lemma SymmetryRejectsIff(steps: UnloadSteps, items: seq<CargoItem>, k: nat, layout: Layout, r: Rect)
    requires k < |items|
    ensures SymmetryRejects(steps, items, k, layout, r) <==> TwinStandsBehind(steps, items, k, items[k], layout, r)
  {
    LeastPositionIff(steps, items, k, items[k], layout, r);
  }

  lemma {:induction false} LeastPositionIff(steps: UnloadSteps, items: seq<CargoItem>, k: nat, item: CargoItem,
      layout: Layout, r: Rect)
    requires k <= |items|
    ensures var least := MinimumSymmetricPosition(steps, items, k, item, layout);
            (least.Some? && PositionLess(r, least.value)) <==> TwinStandsBehind(steps, items, k, item, layout, r)
  {
    hide AreTwins, Identical;
    if k > 0 {
      LeastPositionIff(steps, items, k - 1, item, layout, r);
      TwinsIff(steps, items[k - 1], item);
    }
  }

  lemma TwinsIff(steps: UnloadSteps, a: CargoItem, b: CargoItem)
    ensures Identical(steps, a, b) <==> AreTwins(steps, a, b)
  {
  }

  // ---------- one stop ----------

  /** Latest delivery first, then larger footprint, then longer side, then identifier. */
  predicate LoadsBefore(pr: Problem, a: CargoItem, b: CargoItem) {
    if pr.Step(a.id) != pr.Step(b.id) then pr.Step(a.id) > pr.Step(b.id)
    else if a.length * a.width != b.length * b.width then a.length * a.width > b.length * b.width
    else if Max(a.length, a.width) != Max(b.length, b.width) then Max(a.length, a.width) > Max(b.length, b.width)
    else a.id <= b.id
  }

  function LoadOrder(pr: Problem, i: nat): seq<CargoItem>
    requires i < |pr.stops|
  {
    SortBy(pr.stops[i].loads, (a, b) => LoadsBefore(pr, a, b))
  }

  /** The package leaves later, or as late and is larger, or as large and longer, or is
      listed first by its identifier; packages that never leave come before all others. */
  ghost predicate ComesBefore(pr: Problem, a: CargoItem, b: CargoItem) {
    var leavesA := if a.id in pr.steps then pr.steps[a.id] else |pr.stops| + 1;
    var leavesB := if b.id in pr.steps then pr.steps[b.id] else |pr.stops| + 1;
    var longerA := if a.length >= a.width then a.length else a.width;
    var longerB := if b.length >= b.width then b.length else b.width;
    || leavesA > leavesB
    || (leavesA == leavesB && a.length * a.width > b.length * b.width)
    || (leavesA == leavesB && a.length * a.width == b.length * b.width && longerA > longerB)
    || (leavesA == leavesB && a.length * a.width == b.length * b.width && longerA == longerB && a.id <= b.id)
  }

  /** The packages of a stop are loaded in that order, whatever the order of declaration. */
  lemma LoadOrderIsSorted(pr: Problem, i: nat, j: nat, k: nat)
    requires i < |pr.stops| && j < k < |LoadOrder(pr, i)|
    ensures ComesBefore(pr, LoadOrder(pr, i)[j], LoadOrder(pr, i)[k])
  {
    var leq := (a, b) => LoadsBefore(pr, a, b);
    assert TotalPreorder(leq);
    SortBySorted(pr.stops[i].loads, leq);
  }

  /** The checks made before an item is placed anywhere. */
  ghost predicate CanTake(pr: Problem, i: nat, item: CargoItem, layout: Layout) {
    && item.id !in layout
    && (item.id in pr.steps ==> pr.steps[item.id] > i)
    && TotalWeight(layout) + item.weight <= pr.f.payload
    && AtMost(item.height, pr.f.height)
  }

  /** A position is accepted; `prune` says whether the unload-safety test is made. */
  ghost predicate Accepts(pr: Problem, prune: bool, items: seq<CargoItem>, k: nat, layout: Layout, r: Rect)
    requires k < |items|
  {
    && IsCandidate(pr.f, items[k], Rects(layout), r)
    && !SymmetryRejects(pr.steps, items, k, layout, r)
    && CanEscape(pr.f, r, Rects(layout))
    && (prune ==> UnloadSafe(pr.f, items[k].id, r, layout, pr.steps, |pr.stops|))
  }

  /** Placing `items[k..]` one by one leads from `layout` to `final`. */
  ghost predicate Loads(pr: Problem, prune: bool, i: nat, items: seq<CargoItem>, k: nat, layout: Layout, final: Layout)
    requires k <= |items|
    decreases |items| - k
  {
    if k == |items| then final == layout
    else
      var item := items[k];
      && CanTake(pr, i, item, layout)
      && item.id in final
      && var r := final[item.id].rect;
         && final[item.id] == Place(item, r)
         && Accepts(pr, prune, items, k, layout, r)
         && Loads(pr, prune, i, items, k + 1, layout[item.id := Place(item, r)], final)
  }

  ghost predicate SearchStop(pr: Problem, prune: bool, i: nat, layout: Layout, step: Step)
    requires i < |pr.stops|
  {
    && Permutation(step.unloadOrder, pr.stops[i].unloads)
    && IsUnloadOrder(pr.f, layout, step.unloadOrder)
    && Loads(pr, prune, i, LoadOrder(pr, i), 0, layout - Elements(pr.stops[i].unloads), step.layout)
  }

  /** The searched space: the runs of the whole plan that the search may follow. */
  ghost predicate SearchSteps(pr: Problem, prune: bool, i: nat, layout: Layout, steps: seq<Step>)
    requires i <= |pr.stops|
    decreases |pr.stops| - i
  {
    && |steps| == |pr.stops| - i
    && (i < |pr.stops| ==>
          && SearchStop(pr, prune, i, layout, steps[0])
          && SearchSteps(pr, prune, i + 1, steps[0].layout, steps[1..]))
  }

  ghost predicate Solvable(pr: Problem, prune: bool, i: nat, layout: Layout)
    requires i <= |pr.stops|
  {
    exists steps: seq<Step> :: SearchSteps(pr, prune, i, layout, steps)
  }

  // ---------- what is aboard when ----------

  function LoadWeights(items: seq<CargoItem>): map<ItemId, int> {
    if items == [] then map[]
    else map[items[0].id := items[0].weight] + LoadWeights(items[1..])
  }

  /** Identifiers and weights aboard before stop `i`; the search has no choice in them. */
  ghost function CargoAboard(pr: Problem, i: nat): map<ItemId, int>
    requires i <= |pr.stops|
  {
    if i == 0 then map[]
    else CargoAboard(pr, i - 1) - Elements(pr.stops[i - 1].unloads) + LoadWeights(LoadOrder(pr, i - 1))
  }

  /** What every floor met at stop `i` satisfies. */
  ghost predicate FloorInvariant(pr: Problem, i: nat, layout: Layout) {
    && i <= |pr.stops|
    && GoodLayout(pr.f, layout)
    && NothingOverdue(layout, pr.steps, i)
    && Weights(layout) == CargoAboard(pr, i)
  }

  /** The same while stop `i` is being loaded and `items[k..]` are still to come. */
  ghost predicate LoadingInvariant(pr: Problem, i: nat, items: seq<CargoItem>, k: nat, layout: Layout) {
    && i < |pr.stops| && k <= |items| && items == LoadOrder(pr, i)
    && GoodLayout(pr.f, layout)
    && NothingOverdue(layout, pr.steps, i + 1)
    && Weights(layout) + LoadWeights(items[k..]) == CargoAboard(pr, i + 1)
  }

  lemma LoadOrderMembers(pr: Problem, i: nat)
    requires pr.Valid() && i < |pr.stops|
    ensures Permutation(LoadOrder(pr, i), pr.stops[i].loads)
    ensures forall item :: item in LoadOrder(pr, i) <==> item in pr.stops[i].loads
    ensures forall item | item in LoadOrder(pr, i) :: item.Valid()
  {
    SameMembers(LoadOrder(pr, i), pr.stops[i].loads);
  }

  lemma EmptyFloorInvariant(pr: Problem)
    requires pr.Valid()
    ensures FloorInvariant(pr, 0, map[])
  {
    EmptyLayoutGood(pr.f);
    var empty: Layout := map[];
    assert Weights(empty) == map[];
  }

  lemma UnloadedStillDue(pr: Problem, i: nat, layout: Layout)
    requires pr.Valid() && i < |pr.stops| && NothingOverdue(layout, pr.steps, i)
    ensures NothingOverdue(layout - Elements(pr.stops[i].unloads), pr.steps, i + 1)
    ensures forall id | id in layout :: id in Elements(pr.stops[i].unloads) <==> pr.Step(id) == i
  {
    forall id | id in layout
      ensures id in Elements(pr.stops[i].unloads) <==> pr.Step(id) == i
    {
      if id in pr.steps {
        assert FirstUnloadAt(pr.stops, id, pr.steps[id]);
      }
    }
  }

  lemma StartLoading(pr: Problem, i: nat, layout: Layout)
    requires pr.Valid() && FloorInvariant(pr, i, layout) && i < |pr.stops|
    ensures LoadingInvariant(pr, i, LoadOrder(pr, i), 0, layout - Elements(pr.stops[i].unloads))
  {
    var leaving := Elements(pr.stops[i].unloads);
    UnloadedLayoutGood(pr.f, layout, leaving);
    UnloadedStillDue(pr, i, layout);
    assert Weights(layout - leaving) == Weights(layout) - leaving;
    assert LoadOrder(pr, i)[0..] == LoadOrder(pr, i);
  }

  lemma FinishLoading(pr: Problem, i: nat, items: seq<CargoItem>, layout: Layout)
    requires LoadingInvariant(pr, i, items, |items|, layout)
    ensures FloorInvariant(pr, i + 1, layout)
  {
    assert LoadWeights(items[|items|..]) == map[];
  }

  lemma LoadOne(pr: Problem, i: nat, items: seq<CargoItem>, k: nat, layout: Layout, r: Rect)
    requires pr.Valid() && LoadingInvariant(pr, i, items, k, layout) && k < |items|
    requires CanTake(pr, i, items[k], layout) && IsCandidate(pr.f, items[k], Rects(layout), r)
    ensures LoadingInvariant(pr, i, items, k + 1, layout[items[k].id := Place(items[k], r)])
  {
    hide IsCandidate, GoodLayout, Clear, InBounds;
    var item := items[k];
    LoadOrderMembers(pr, i);
    CandidateStands(pr.f, item, Rects(layout), r);
    LoadedLayoutGood(pr.f, layout, item, r);
    LoadOneWeights(layout, items, k, Place(item, r));
  }

  lemma LoadOneWeights(layout: Layout, items: seq<CargoItem>, k: nat, p: Placed)
    requires k < |items| && p.weight == items[k].weight
    ensures Weights(layout[items[k].id := p]) + LoadWeights(items[k + 1..])
            == Weights(layout) + LoadWeights(items[k..])
  {
    assert items[k..][1..] == items[k + 1..];
    assert Weights(layout[items[k].id := p]) == Weights(layout)[items[k].id := p.weight];
  }

  lemma {:induction false} LoadsKeepInvariant(pr: Problem, prune: bool, i: nat, items: seq<CargoItem>, k: nat,
      layout: Layout, final: Layout)
    requires pr.Valid() && LoadingInvariant(pr, i, items, k, layout) && k <= |items|
    requires Loads(pr, prune, i, items, k, layout, final)
    ensures FloorInvariant(pr, i + 1, final)
    ensures forall id | id in layout :: id in final && final[id] == layout[id]
    decreases |items| - k
  {
    hide LoadingInvariant, FloorInvariant, CanTake, IsCandidate, UnloadSafe, CanEscape;
    if k == |items| {
      FinishLoading(pr, i, items, layout);
    } else {
      var item := items[k];
      LoadOne(pr, i, items, k, layout, final[item.id].rect);
      LoadsKeepInvariant(pr, prune, i, items, k + 1, layout[item.id := final[item.id]], final);
      NotYetAboard(pr, i, item, layout);
    }
  }

  lemma NotYetAboard(pr: Problem, i: nat, item: CargoItem, layout: Layout)
    requires CanTake(pr, i, item, layout)
    ensures item.id !in layout
  {
  }

  lemma SearchStopKeepsInvariant(pr: Problem, prune: bool, i: nat, layout: Layout, step: Step)
    requires pr.Valid() && FloorInvariant(pr, i, layout) && i < |pr.stops|
    requires SearchStop(pr, prune, i, layout, step)
    ensures FloorInvariant(pr, i + 1, step.layout)
  {
    StartLoading(pr, i, layout);
    LoadsKeepInvariant(pr, prune, i, LoadOrder(pr, i), 0, layout - Elements(pr.stops[i].unloads), step.layout);
  }

  // ---------- everything found is a legal replay ----------

  lemma {:induction false} LoadsAreLegal(pr: Problem, prune: bool, i: nat, items: seq<CargoItem>, k: nat,
      layout: Layout, final: Layout)
    requires pr.Valid() && LoadingInvariant(pr, i, items, k, layout) && k <= |items|
    requires Loads(pr, prune, i, items, k, layout, final)
    ensures LegalLoads(pr.f, layout, items[k..], final)
    decreases |items| - k
  {
    hide LoadingInvariant, UnloadSafe, CanEscape, CanEnter, IsCandidate, Problem.Valid, SymmetryRejects;
    if k == |items| {
      assert items[k..] == [];
    } else {
      var item := items[k];
      var r := final[item.id].rect;
      LoadOne(pr, i, items, k, layout, r);
      LoadsAreLegal(pr, prune, i, items, k + 1, layout[item.id := Place(item, r)], final);
      ItemIsValid(pr, i, items, k, layout);
      CandidateStands(pr.f, item, Rects(layout), r);
      EnterIffEscape(pr.f, r, Rects(layout));
      assert items[k..][1..] == items[k + 1..];
    }
  }

  lemma ItemIsValid(pr: Problem, i: nat, items: seq<CargoItem>, k: nat, layout: Layout)
    requires pr.Valid() && LoadingInvariant(pr, i, items, k, layout) && k < |items|
    ensures items[k].Valid()
  {
    LoadOrderMembers(pr, i);
  }

  lemma SearchStopIsLegal(pr: Problem, prune: bool, i: nat, layout: Layout, step: Step)
    requires pr.Valid() && FloorInvariant(pr, i, layout) && i < |pr.stops|
    requires SearchStop(pr, prune, i, layout, step)
    ensures LegalStop(pr.f, pr.stops[i], layout, step)
  {
    hide IsUnloadOrder, FloorInvariant, LegalLoads, Loads;
    var items := LoadOrder(pr, i);
    LoadOrderMembers(pr, i);
    StartLoading(pr, i, layout);
    PermutationElements(step.unloadOrder, pr.stops[i].unloads);
    LoadsAreLegal(pr, prune, i, items, 0, layout - Elements(pr.stops[i].unloads), step.layout);
    assert items[0..] == items;
  }

  /** Soundness of the searched space: each of its runs is a legal replay of the rest
      of the plan, and every floor on the way keeps the invariant. */
  lemma {:induction false} SearchStepsAreLegal(pr: Problem, prune: bool, i: nat, layout: Layout, steps: seq<Step>)
    requires pr.Valid() && FloorInvariant(pr, i, layout)
    requires SearchSteps(pr, prune, i, layout, steps)
    ensures LegalReplay(pr.f, pr.stops[i..], layout, steps)
    decreases |pr.stops| - i
  {
    hide LegalStop, SearchStop, FloorInvariant;
    assert i <= |pr.stops| by { InvariantIndex(pr, i, layout); }
    if i < |pr.stops| {
      SearchStopIsLegal(pr, prune, i, layout, steps[0]);
      SearchStopKeepsInvariant(pr, prune, i, layout, steps[0]);
      SearchStepsAreLegal(pr, prune, i + 1, steps[0].layout, steps[1..]);
      assert pr.stops[i..][1..] == pr.stops[i + 1..];
    }
  }

  lemma InvariantIndex(pr: Problem, i: nat, layout: Layout)
    requires FloorInvariant(pr, i, layout)
    ensures i <= |pr.stops|
  {
  }

  // ---------- pruning loses nothing ----------

  lemma {:induction false} LoadsPruned(pr: Problem, i: nat, items: seq<CargoItem>, k: nat, layout: Layout,
      final: Layout)
    requires pr.Valid() && LoadingInvariant(pr, i, items, k, layout) && k <= |items|
    requires Loads(pr, false, i, items, k, layout, final)
    requires RespectsUnloadOrder(pr.f, final, pr.steps, |pr.stops|)
    ensures Loads(pr, true, i, items, k, layout, final)
    decreases |items| - k
  {
    hide LoadingInvariant, FloorInvariant, CanEscape, UnloadSafe, RespectsUnloadOrder, IsCandidate, Problem.Valid,
        SymmetryRejects;
    if k < |items| {
      var item := items[k];
      var p := final[item.id];
      var next := layout[item.id := p];
      LoadOne(pr, i, items, k, layout, p.rect);
      LoadsPruned(pr, i, items, k + 1, next, final);
      LoadsKeepInvariant(pr, false, i, items, k + 1, next, final);
      RespectIsMonotone(pr.f, next, final, pr.steps, |pr.stops|);
      IncrementalTestIsExact(pr.f, layout, item.id, p, pr.steps, |pr.stops|);
    }
  }

  lemma {:induction false} LoadsUnpruned(pr: Problem, i: nat, items: seq<CargoItem>, k: nat, layout: Layout,
      final: Layout)
    requires k <= |items| && Loads(pr, true, i, items, k, layout, final)
    ensures Loads(pr, false, i, items, k, layout, final)
    decreases |items| - k
  {
    hide CanTake, IsCandidate, SymmetryRejects, UnloadSafe;
    if k < |items| {
      LoadsUnpruned(pr, i, items, k + 1, layout[items[k].id := final[items[k].id]], final);
    }
  }

  lemma {:induction false} PrunedRunsAreRuns(pr: Problem, i: nat, layout: Layout, steps: seq<Step>)
    requires i <= |pr.stops| && SearchSteps(pr, true, i, layout, steps)
    ensures SearchSteps(pr, false, i, layout, steps)
    decreases |pr.stops| - i
  {
    hide Loads, IsUnloadOrder;
    if i < |pr.stops| {
      LoadsUnpruned(pr, i, LoadOrder(pr, i), 0, layout - Elements(pr.stops[i].unloads), steps[0].layout);
      PrunedRunsAreRuns(pr, i + 1, steps[0].layout, steps[1..]);
    }
  }

  lemma {:induction false} RunsArePruned(pr: Problem, i: nat, layout: Layout, steps: seq<Step>)
    requires pr.Valid() && i <= |pr.stops| && FloorInvariant(pr, i, layout)
    requires SearchSteps(pr, false, i, layout, steps)
    ensures SearchSteps(pr, true, i, layout, steps)
    decreases |pr.stops| - i
  {
    hide FloorInvariant, LegalReplay, IsUnloadOrder, Loads, LoadingInvariant, Problem.Valid, RespectsUnloadOrder;
    if i < |pr.stops| {
      var step := steps[0];
      StartLoading(pr, i, layout);
      SearchStopKeepsInvariant(pr, false, i, layout, step);
      SearchStepsAreLegal(pr, false, i + 1, step.layout, steps[1..]);
      FloorRespects(pr, i + 1, step.layout);
      LoadsPruned(pr, i, LoadOrder(pr, i), 0, layout - Elements(pr.stops[i].unloads), step.layout);
      RunsArePruned(pr, i + 1, step.layout, steps[1..]);
    }
  }

  /** The unload-safety test removes no run of the searched space. */
  lemma PruningIsLossless(pr: Problem, i: nat, layout: Layout, steps: seq<Step>)
    requires pr.Valid() && i <= |pr.stops| && FloorInvariant(pr, i, layout)
    ensures SearchSteps(pr, true, i, layout, steps) <==> SearchSteps(pr, false, i, layout, steps)
  {
    if SearchSteps(pr, true, i, layout, steps) {
      PrunedRunsAreRuns(pr, i, layout, steps);
    }
    if SearchSteps(pr, false, i, layout, steps) {
      RunsArePruned(pr, i, layout, steps);
    }
  }

  lemma FloorRespects(pr: Problem, i: nat, layout: Layout)
    requires pr.Valid() && FloorInvariant(pr, i, layout)
    requires CanReplayFrom(pr.f, pr.stops[i..], layout)
    ensures RespectsUnloadOrder(pr.f, layout, pr.steps, |pr.stops|)
  {
    ReplayableRespectsUnloadOrder(pr.f, pr.stops, i, layout, pr.steps);
  }
}
