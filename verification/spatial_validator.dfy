/** The validator: a budgeted backtracking search over layouts, stop by stop, run
    separately on each load cycle. */
module SpatialValidator {
  import opened Prelude
  import opened Geometry
  import opened EscapeSearch
  import opened Replay
  import opened UnloadSafety
  import opened UnloadSearch
  import opened LayoutSpace
  import opened LayoutClasses
  import FloorArea

  const MAX_LAYOUTS_PER_STOP := 32
  const AREA_TOLERANCE := 1 // square millimetres: 0.01 square centimetres

  /** The steps found, with the largest weight and area aboard after any stop. */
  datatype Solution = Solution(steps: seq<Step>, maxWeight: int, maxArea: int)

  ghost function MaxWeightOver(start: int, steps: seq<Step>): int
    decreases |steps|
  {
    if steps == [] then start else MaxWeightOver(Max(start, TotalWeight(steps[0].layout)), steps[1..])
  }

  ghost function MaxAreaOver(start: int, steps: seq<Step>): int
    decreases |steps|
  {
    if steps == [] then start else MaxAreaOver(Max(start, TotalArea(steps[0].layout)), steps[1..])
  }

  /** The reported maximum is an upper bound that is attained. */
  lemma {:induction false} MaxWeightIsTrue(start: int, steps: seq<Step>)
    ensures MaxWeightOver(start, steps) >= start
    ensures forall k | 0 <= k < |steps| :: TotalWeight(steps[k].layout) <= MaxWeightOver(start, steps)
    ensures MaxWeightOver(start, steps) == start
            || exists k | 0 <= k < |steps| :: MaxWeightOver(start, steps) == TotalWeight(steps[k].layout)
    decreases |steps|
  {
    if steps == [] {
    } else {
      var next := Max(start, TotalWeight(steps[0].layout));
      MaxWeightIsTrue(next, steps[1..]);
      forall k | 0 <= k < |steps|
        ensures TotalWeight(steps[k].layout) <= MaxWeightOver(start, steps)
      {
        if k > 0 { assert steps[k] == steps[1..][k - 1]; }
      }
      if MaxWeightOver(start, steps) != start {
        if next == MaxWeightOver(next, steps[1..]) {
          assert MaxWeightOver(start, steps) == TotalWeight(steps[0].layout);
        } else {
          var k :| 0 <= k < |steps[1..]| && MaxWeightOver(next, steps[1..]) == TotalWeight(steps[1..][k].layout);
          assert steps[k + 1] == steps[1..][k];
        }
      }
    }
  }

  lemma {:induction false} MaxAreaIsTrue(start: int, steps: seq<Step>)
    ensures MaxAreaOver(start, steps) >= start
    ensures forall k | 0 <= k < |steps| :: TotalArea(steps[k].layout) <= MaxAreaOver(start, steps)
    ensures MaxAreaOver(start, steps) == start
            || exists k | 0 <= k < |steps| :: MaxAreaOver(start, steps) == TotalArea(steps[k].layout)
    decreases |steps|
  {
    if steps == [] {
    } else {
      var next := Max(start, TotalArea(steps[0].layout));
      MaxAreaIsTrue(next, steps[1..]);
      forall k | 0 <= k < |steps|
        ensures TotalArea(steps[k].layout) <= MaxAreaOver(start, steps)
      {
        if k > 0 { assert steps[k] == steps[1..][k - 1]; }
      }
      if MaxAreaOver(start, steps) != start {
        if next == MaxAreaOver(next, steps[1..]) {
          assert MaxAreaOver(start, steps) == TotalArea(steps[0].layout);
        } else {
          var k :| 0 <= k < |steps[1..]| && MaxAreaOver(next, steps[1..]) == TotalArea(steps[1..][k].layout);
          assert steps[k + 1] == steps[1..][k];
        }
      }
    }
  }

  method MeasureLayout(layout: Layout) returns (weight: int, area: int)
    ensures weight == TotalWeight(layout) && area == TotalArea(layout)
  {
    weight, area := 0, 0;
    var rest := layout;
    assert Weights(map[]) == map[] && Areas(map[]) == map[];
    while rest != map[]
      invariant rest.Keys <= layout.Keys
      invariant weight + TotalWeight(rest) == TotalWeight(layout)
      invariant area + TotalArea(rest) == TotalArea(layout)
      decreases |rest|
    {
      var i :| i in rest;
      FloorArea.AreaWithout(rest, i);
      WeightWithout(rest, i);
      weight, area := weight + rest[i].weight, area + rest[i].rect.Area();
      rest := rest - {i};
    }
  }

  lemma WeightWithout(layout: Layout, i: ItemId)
    requires i in layout
    ensures TotalWeight(layout) == layout[i].weight + TotalWeight(layout - {i})
  {
    MapSums.SumRemove(Weights(layout), i);
    assert Weights(layout - {i}) == Weights(layout) - {i};
  }

  // ---------- candidate order ----------

  method LatestUnloadStep(steps: UnloadSteps) returns (latest: Option<nat>)
    ensures latest.None? <==> steps == map[]
    ensures latest.Some? ==> latest.value in steps.Values && forall id | id in steps :: steps[id] <= latest.value
  {
    latest := None;
    var pending := steps.Keys;
    while pending != {}
      invariant pending <= steps.Keys
      invariant latest.None? <==> pending == steps.Keys
      invariant latest.Some? ==> latest.value in steps.Values
                                 && forall id | id in steps && id !in pending :: steps[id] <= latest.value
    {
      var id :| id in pending;
      assert steps[id] in steps.Values;
      if latest.None? || latest.value < steps[id] {
        latest := Some(steps[id]);
      }
      pending := pending - {id};
    }
  }

  /** A compact early order is tried at the rear door first. */
  function PrefersDoor(pr: Problem, items: seq<CargoItem>, item: CargoItem, latest: Option<nat>): bool {
    var last := if latest.Some? then latest.value else 0;
    var early := Filter(items, (other: CargoItem) => (if other.id in pr.steps then pr.steps[other.id] else 0) < last);
    var earlyArea := Sorting.SumBy(early, (other: CargoItem) => other.length * other.width);
    var minWidth := if item.canRotate then Min(item.length, item.width) else item.width;
    && |early| <= 4
    && 100 * earlyArea <= 35 * (pr.f.length * pr.f.width)
    && item.id in pr.steps && latest.Some? && pr.steps[item.id] < latest.value
    && 100 * minWidth <= 65 * pr.f.width
  }

  function Filter<T>(xs: seq<T>, keep: T -> bool): seq<T> {
    if xs == [] then []
    else (if keep(xs[0]) then [xs[0]] else []) + Filter(xs[1..], keep)
  }

  /** Order of trial: nearest the door, or the smallest bounding length, then position. */
  predicate TriedBefore(f: Floor, item: CargoItem, preferDoor: bool, currentMaxX: int, a: Rect, b: Rect) {
    var reachA, reachB := Max(currentMaxX, a.x + a.length), Max(currentMaxX, b.x + b.length);
    var turnedA, turnedB := a.length != item.length, b.length != item.length;
    if preferDoor then
      if a.x + a.length != b.x + b.length then a.x + a.length > b.x + b.length
      else if a.y != b.y then a.y < b.y
      else !turnedA || turnedB
    else
      if reachA != reachB then reachA < reachB
      else if a.x != b.x then a.x < b.x
      else if a.y != b.y then a.y < b.y
      else !turnedA || turnedB
  }

  /** `a` is tried no later than `b`: nearer the door, or leaving the loaded part shorter and
      then nearer the cab; and then nearer the left wall, and not turned before turned. */
  ghost predicate NotAfter(item: CargoItem, preferDoor: bool, loadedLength: int, a: Rect, b: Rect) {
    var endA, endB := a.x + a.length, b.x + b.length;
    var lengthA := if endA > loadedLength then endA else loadedLength;
    var lengthB := if endB > loadedLength then endB else loadedLength;
    var sideways := a.y < b.y || (a.y == b.y && (a.length == item.length || b.length != item.length));
    if preferDoor then endA > endB || (endA == endB && sideways)
    else lengthA < lengthB || (lengthA == lengthB && (a.x < b.x || (a.x == b.x && sideways)))
  }

  method Reach(placed: set<Rect>) returns (maxX: int)
    ensures maxX >= 0 && forall p | p in placed :: p.x + p.length <= maxX
    ensures maxX == 0 || exists p :: p in placed && p.x + p.length == maxX
  {
    maxX := 0;
    var pending := placed;
    while pending != {}
      invariant pending <= placed
      invariant maxX >= 0 && forall p | p in placed - pending :: p.x + p.length <= maxX
      invariant maxX == 0 || exists p :: p in placed && p.x + p.length == maxX
    {
      var p :| p in pending;
      maxX := Max(maxX, p.x + p.length);
      pending := pending - {p};
    }
  }

  method CandidatePlacements(f: Floor, item: CargoItem, placed: set<Rect>, preferDoor: bool)
      returns (candidates: seq<Rect>, ghost loadedLength: int)
    ensures forall r :: r in candidates <==> IsCandidate(f, item, placed, r)
    ensures forall r :: r in candidates <==> IsFlushPlacement(f, item, placed, r)
    ensures loadedLength >= 0 && forall p | p in placed :: p.x + p.length <= loadedLength
    ensures loadedLength == 0 || exists p :: p in placed && p.x + p.length == loadedLength
    ensures forall j, k | 0 <= j < k < |candidates| ::
              NotAfter(item, preferDoor, loadedLength, candidates[j], candidates[k])
  {
    hide Clear, XCandidates, YCandidates, IsFlushPlacement, NotAfter;
    forall r
      ensures IsCandidate(f, item, placed, r) <==> IsFlushPlacement(f, item, placed, r)
    {
      CandidateIff(f, item, placed, r);
    }
    var orientations := Orientations(item);
    candidates := [];
    for o := 0 to |orientations|
      invariant forall r :: r in candidates <==>
                            IsCandidate(f, item, placed, r) && (r.length, r.width) in orientations[..o]
    {
      var (length, width) := orientations[o];
      ghost var before := candidates;
      assert orientations[..o + 1] == orientations[..o] + [(length, width)];
      if !AtMost(length, f.length) || !AtMost(width, f.width) {
        continue;
      }
      var xs, ys := XCandidates(f, length, placed), YCandidates(f, width, placed);
      var pool := set x, y | x in xs && y in ys
                             && 0 <= x && AtMost(x + length, f.length)
                             && 0 <= y && AtMost(y + width, f.width)
                             && Clear(Rect(x, y, length, width), placed)
                           :: Rect(x, y, length, width);
      forall r
        ensures r in pool <==> IsCandidate(f, item, placed, r) && r.length == length && r.width == width
      {
        assert r == Rect(r.x, r.y, r.length, r.width);
      }
      ghost var all := pool;
      while pool != {}
        invariant pool <= all
        invariant forall r :: r in candidates <==> r in before || r in all - pool
      {
        var r :| r in pool;
        candidates := candidates + [r];
        pool := pool - {r};
      }
    }
    assert orientations[..|orientations|] == orientations;
    var currentMaxX := Reach(placed);
    candidates := InTrialOrder(f, item, preferDoor, currentMaxX, candidates);
    loadedLength := currentMaxX;
  }

  method InTrialOrder(f: Floor, item: CargoItem, preferDoor: bool, loadedLength: int, list: seq<Rect>)
      returns (sorted: seq<Rect>)
    ensures forall r :: r in sorted <==> r in list
    ensures forall j, k | 0 <= j < k < |sorted| :: NotAfter(item, preferDoor, loadedLength, sorted[j], sorted[k])
  {
    var leq := (a, b) => TriedBefore(f, item, preferDoor, loadedLength, a, b);
    sorted := Sorting.SortBy(list, leq);
    Sorting.SameMembers(sorted, list);
    assert Sorting.TotalPreorder(leq);
    Sorting.SortBySorted(list, leq);
    forall j, k | 0 <= j < k < |sorted|
      ensures NotAfter(item, preferDoor, loadedLength, sorted[j], sorted[k])
    {
      assert leq(sorted[j], sorted[k]);
    }
  }

  // ---------- the cut-offs before loading ----------

  function LoadWeight(items: seq<CargoItem>): int {
    Sorting.SumBy(items, (item: CargoItem) => item.weight)
  }

  function LoadArea(items: seq<CargoItem>): int {
    Sorting.SumBy(items, (item: CargoItem) => item.length * item.width)
  }

  lemma LoadOrderTotals(pr: Problem, i: nat)
    requires i < |pr.stops|
    ensures LoadWeight(LoadOrder(pr, i)) == LoadWeight(pr.stops[i].loads)
    ensures LoadArea(LoadOrder(pr, i)) == LoadArea(pr.stops[i].loads)
  {
    var leq := (a, b) => LoadsBefore(pr, a, b);
    Sorting.SortBySum(pr.stops[i].loads, leq, (item: CargoItem) => item.weight);
    Sorting.SortBySum(pr.stops[i].loads, leq, (item: CargoItem) => item.length * item.width);
  }

  /** Loading adds exactly the weights and footprints of what is loaded. */
  lemma {:induction false} LoadsTotals(pr: Problem, prune: bool, i: nat, items: seq<CargoItem>, k: nat,
      layout: Layout, final: Layout)
    requires k <= |items| && Loads(pr, prune, i, items, k, layout, final)
    requires forall item | item in items :: item.Valid()
    ensures TotalWeight(final) == TotalWeight(layout) + LoadWeight(items[k..])
    ensures TotalArea(final) == TotalArea(layout) + LoadArea(items[k..])
    decreases |items| - k
  {
    hide UnloadSafe, IsCandidate, SymmetryRejects, CanEscape;
    if k == |items| {
      assert items[k..] == [];
    } else {
      var item := items[k];
      var p := final[item.id];
      assert items[k..][1..] == items[k + 1..];
      LoadedTotals(layout, item.id, p);
      CandidateStands(pr.f, item, Rects(layout), p.rect);
      MatchingArea(item, p.rect);
      LoadsTotals(pr, prune, i, items, k + 1, layout[item.id := p], final);
    }
  }

  /** A stop cut off for weight or area had no layout to explore. */
  lemma CutOffsAreLossless(pr: Problem, prune: bool, i: nat, layout: Layout, final: Layout)
    requires pr.Valid() && i < |pr.stops| && FloorInvariant(pr, i, layout)
    requires Loads(pr, prune, i, LoadOrder(pr, i), 0, layout - Elements(pr.stops[i].unloads), final)
    ensures var cleared := layout - Elements(pr.stops[i].unloads);
            && TotalWeight(cleared) + LoadWeight(pr.stops[i].loads) <= pr.f.payload
            && TotalArea(cleared) + LoadArea(pr.stops[i].loads) <= pr.f.length * pr.f.width
  {
    hide Loads, CargoAboard, NothingOverdue, LoadWeight, LoadArea;
    var items, cleared := LoadOrder(pr, i), layout - Elements(pr.stops[i].unloads);
    LoadOrderMembers(pr, i);
    LoadOrderTotals(pr, i);
    StartLoading(pr, i, layout);
    LoadsTotals(pr, prune, i, items, 0, cleared, final);
    assert items[0..] == items;
    LoadsKeepInvariant(pr, prune, i, items, 0, cleared, final);
    FloorArea.AreaFitsFloor(pr.f, final);
  }

  // ---------- remembered failures ----------

  type Failures = set<(nat, LayoutKey)>

  /** Every floor with this key fails at stop `i`. */
  ghost predicate FailsAt(pr: Problem, classes: Classes, i: nat, key: LayoutKey) {
    i <= |pr.stops| ==>
      forall layout: Layout | FloorInvariant(pr, i, layout) && Key(classes, layout) == key ::
        !Solvable(pr, true, i, layout)
  }

  ghost predicate FailuresHold(pr: Problem, classes: Classes, failed: Failures) {
    forall entry | entry in failed :: FailsAt(pr, classes, entry.0, entry.1)
  }

  ghost predicate ExploredFail(pr: Problem, classes: Classes, i: nat, explored: set<LayoutKey>) {
    forall key | key in explored :: FailsAt(pr, classes, i, key)
  }

  lemma FailureSpreads(pr: Problem, classes: Classes, i: nat, layout: Layout)
    requires pr.Valid() && ClassesFor(pr, classes) && i <= |pr.stops| && FloorInvariant(pr, i, layout)
    requires !Solvable(pr, true, i, layout)
    ensures FailsAt(pr, classes, i, Key(classes, layout))
  {
    hide Solvable, FloorInvariant, Problem.Valid;
    forall other: Layout | FloorInvariant(pr, i, other) && Key(classes, other) == Key(classes, layout)
      ensures !Solvable(pr, true, i, other)
    {
      SameKeySameVerdict(pr, classes, true, i, layout, other);
    }
  }

  // ---------- giving up on a stop ----------

  /** The search's loading of stop `i`, started on this floor, can end with this key. */
  ghost predicate IsLoadedKey(pr: Problem, classes: Classes, i: nat, start: Layout, key: LayoutKey)
    requires i < |pr.stops|
  {
    exists final :: Loads(pr, true, i, LoadOrder(pr, i), 0, start, final) && Key(classes, final) == key
  }

  /** Some stop really has more than 32 loadings that differ in their keys. */
  ghost predicate HasManyLoadings(pr: Problem, classes: Classes) {
    exists i: nat, start: Layout, keys: set<LayoutKey> ::
      i < |pr.stops| && |keys| > 32 && AreLoadedKeys(pr, classes, i, start, keys)
  }

  ghost predicate AreLoadedKeys(pr: Problem, classes: Classes, i: nat, start: Layout, keys: set<LayoutKey>)
    requires i < |pr.stops|
  {
    forall key | key in keys :: IsLoadedKey(pr, classes, i, start, key)
  }

  /** Why the budget was exceeded, if it was. */
  ghost predicate LimitIsJustified(pr: Problem, classes: Classes, context: SearchContext)
    reads context
  {
    context.Explained() && (TooManyLayouts in context.causes ==> HasManyLoadings(pr, classes))
  }

  /** However the loading of `items[k..]` ends from here, it is an end from the start. */
  ghost predicate LeadsHere(pr: Problem, i: nat, items: seq<CargoItem>, start: Layout, k: nat, layout: Layout)
    requires i < |pr.stops| && k <= |items|
  {
    && items == LoadOrder(pr, i)
    && forall final | Loads(pr, true, i, items, k, layout, final) :: Loads(pr, true, i, items, 0, start, final)
  }

  lemma NothingLoadedYet(pr: Problem, classes: Classes, i: nat, layout: Layout)
    requires i < |pr.stops|
    ensures LeadsHere(pr, i, LoadOrder(pr, i), layout, 0, layout) && AreLoadedKeys(pr, classes, i, layout, {})
  {
  }

  lemma LeadsOn(pr: Problem, i: nat, items: seq<CargoItem>, start: Layout, k: nat, layout: Layout, r: Rect)
    requires pr.Valid() && i < |pr.stops| && k < |items| && LoadingInvariant(pr, i, items, k, layout)
    requires LeadsHere(pr, i, items, start, k, layout)
    requires CanTake(pr, i, items[k], layout) && Accepts(pr, true, items, k, layout, r)
    ensures LeadsHere(pr, i, items, start, k + 1, layout[items[k].id := Place(items[k], r)])
  {
    hide LoadingInvariant, CanTake, IsCandidate, SymmetryRejects, UnloadSafe, CanEscape, LoadOrder, Problem.Valid;
    var next := layout[items[k].id := Place(items[k], r)];
    forall final | Loads(pr, true, i, items, k + 1, next, final)
      ensures Loads(pr, true, i, items, k, layout, final)
    {
      LoadOne(pr, i, items, k, layout, r);
      LoadsKeepInvariant(pr, true, i, items, k + 1, next, final);
      assert next[items[k].id] == Place(items[k], r);
    }
  }

  lemma LoadedKey(pr: Problem, classes: Classes, i: nat, items: seq<CargoItem>, start: Layout, layout: Layout)
    requires i < |pr.stops| && LeadsHere(pr, i, items, start, |items|, layout)
    ensures IsLoadedKey(pr, classes, i, start, Key(classes, layout))
  {
    hide Key, LoadOrder;
    assert Loads(pr, true, i, items, |items|, layout, layout);
  }

  lemma LoadedKeyAdded(pr: Problem, classes: Classes, i: nat, items: seq<CargoItem>, start: Layout, layout: Layout,
      keys: set<LayoutKey>)
    requires i < |pr.stops| && LeadsHere(pr, i, items, start, |items|, layout)
    requires AreLoadedKeys(pr, classes, i, start, keys)
    ensures AreLoadedKeys(pr, classes, i, start, keys + {Key(classes, layout)})
    ensures |keys + {Key(classes, layout)}| > 32 ==> HasManyLoadings(pr, classes)
  {
    hide Key, LeadsHere, IsLoadedKey;
    LoadedKey(pr, classes, i, items, start, layout);
  }

  // ---------- the search ----------

  /** The solution continues `prior` with a run of the searched space from stop `i`. */
  ghost predicate Continues(pr: Problem, i: nat, layout: Layout, prior: seq<Step>, maxWeight: int, maxArea: int,
      s: Solution) {
    && i <= |pr.stops|
    && prior <= s.steps
    && var rest := s.steps[|prior|..];
       && SearchSteps(pr, true, i, layout, rest)
       && s.maxWeight == MaxWeightOver(maxWeight, rest)
       && s.maxArea == MaxAreaOver(maxArea, rest)
  }

  /** The same from the middle of loading stop `i`, after unloading in `order`. */
  ghost predicate ContinuesLoading(pr: Problem, i: nat, items: seq<CargoItem>, k: nat, layout: Layout,
      order: seq<ItemId>,
                                   prior: seq<Step>, maxWeight: int, maxArea: int, s: Solution) {
    && i < |pr.stops| && k <= |items|
    && prior < s.steps
    && var step, rest := s.steps[|prior|], s.steps[|prior|..];
       && step.unloadOrder == order
       && Loads(pr, true, i, items, k, layout, step.layout)
       && SearchSteps(pr, true, i + 1, step.layout, rest[1..])
       && s.maxWeight == MaxWeightOver(maxWeight, rest)
       && s.maxArea == MaxAreaOver(maxArea, rest)
  }

  lemma LoadedStep(pr: Problem, i: nat, items: seq<CargoItem>, k: nat, layout: Layout, order: seq<ItemId>,
                   prior: seq<Step>, maxWeight: int, maxArea: int, s: Solution)
    requires i < |pr.stops| && k == |items|
    requires Continues(pr, i + 1, layout, prior + [Step(layout, order)],
                       Max(maxWeight, TotalWeight(layout)), Max(maxArea, TotalArea(layout)), s)
    ensures ContinuesLoading(pr, i, items, k, layout, order, prior, maxWeight, maxArea, s)
  {
    hide SearchSteps;
    var longer := prior + [Step(layout, order)];
    assert s.steps[|prior|] == longer[|prior|];
    assert s.steps[|prior|..][1..] == s.steps[|longer|..];
  }

  lemma PlacedStep(pr: Problem, i: nat, items: seq<CargoItem>, k: nat, layout: Layout, r: Rect, order: seq<ItemId>,
                   prior: seq<Step>, maxWeight: int, maxArea: int, s: Solution)
    requires i < |pr.stops| && k < |items|
    requires CanTake(pr, i, items[k], layout) && Accepts(pr, true, items, k, layout, r)
    requires LoadingInvariant(pr, i, items, k, layout) && pr.Valid()
    requires ContinuesLoading(pr, i, items, k + 1, layout[items[k].id := Place(items[k], r)], order, prior, maxWeight,
               maxArea, s)
    ensures ContinuesLoading(pr, i, items, k, layout, order, prior, maxWeight, maxArea, s)
  {
    hide LoadingInvariant, SearchSteps, CanTake, IsCandidate, SymmetryRejects, UnloadSafe, CanEscape;
    var next := layout[items[k].id := Place(items[k], r)];
    LoadOne(pr, i, items, k, layout, r);
    LoadsKeepInvariant(pr, true, i, items, k + 1, next, s.steps[|prior|].layout);
    assert next[items[k].id] == Place(items[k], r);
  }

  lemma FoundStop(pr: Problem, i: nat, layout: Layout, order: seq<ItemId>, prior: seq<Step>, maxWeight: int,
      maxArea: int, s: Solution)
    requires i < |pr.stops|
    requires Permutation(order, pr.stops[i].unloads) && IsUnloadOrder(pr.f, layout, order)
    requires ContinuesLoading(pr, i, LoadOrder(pr, i), 0, layout - Elements(pr.stops[i].unloads), order,
                              prior, maxWeight, maxArea, s)
    requires |s.steps| == |prior| + |pr.stops| - i
    ensures Continues(pr, i, layout, prior, maxWeight, maxArea, s)
  {
    hide Loads, IsUnloadOrder;
  }

  lemma ContinuesLength(pr: Problem, i: nat, items: seq<CargoItem>, k: nat, layout: Layout, order: seq<ItemId>,
                        prior: seq<Step>, maxWeight: int, maxArea: int, s: Solution)
    requires ContinuesLoading(pr, i, items, k, layout, order, prior, maxWeight, maxArea, s)
    ensures |s.steps| == |prior| + |pr.stops| - i
  {
  }

  /** Try every way to load what is left of one stop, and search on from each. */
  method SearchLoadPlacements(
    pr: Problem, classes: Classes, latest: Option<nat>, i: nat, items: seq<CargoItem>, k: nat, layout: Layout,
    order: seq<ItemId>, prior: seq<Step>, maxWeight: int, maxArea: int,
    context: SearchContext, failed: Failures, explored: set<LayoutKey>, ghost start: Layout)
    returns (found: Option<Solution>, failed': Failures, explored': set<LayoutKey>)
    requires pr.Valid() && ClassesFor(pr, classes)
    requires i < |pr.stops| && k <= |items| && LoadingInvariant(pr, i, items, k, layout)
    requires LeadsHere(pr, i, items, start, k, layout) && AreLoadedKeys(pr, classes, i, start, explored)
    requires LimitIsJustified(pr, classes, context)
    requires !context.limitReached ==> FailuresHold(pr, classes, failed) && ExploredFail(pr, classes, i + 1, explored)
    modifies context
    ensures LimitIsJustified(pr, classes, context) && AreLoadedKeys(pr, classes, i, start, explored')
    ensures old(context.limitReached) ==> context.limitReached
    ensures !context.limitReached ==> FailuresHold(pr, classes, failed')
    ensures found.Some? ==>
              ContinuesLoading(pr, i, items, k, layout, order, prior, maxWeight, maxArea, found.value)
    ensures found.None? && !context.limitReached ==> ExploredFail(pr, classes, i + 1, explored')
    ensures found.None? && !context.limitReached ==>
              forall final | Loads(pr, true, i, items, k, layout, final) :: !Solvable(pr, true, i + 1, final)
    decreases |pr.stops| - i, 1, |items| - k
  {
    hide LoadingInvariant, FloorInvariant, Problem.Valid, ClassesFor, FailuresHold, ExploredFail,
         Solvable, IsCandidate, UnloadSafe, CanEscape, SymmetryRejects, TotalWeight, TotalArea, GoodLayout,
         LeadsHere, AreLoadedKeys, HasManyLoadings;
    failed', explored', found := failed, explored, None;
    if k == |items| {
      found, failed', explored' := SearchLoaded(pr, classes, latest, i, items, layout, order, prior, maxWeight,
          maxArea, context, failed, explored, start);
      return;
    }
    var item := items[k];
    if item.id in layout {
      return;
    }
    if item.id in pr.steps && pr.steps[item.id] <= i {
      return;
    }
    var currentWeight, currentArea := MeasureLayout(layout);
    if currentWeight + item.weight > pr.f.payload {
      return;
    }
    if !AtMost(item.height, pr.f.height) {
      return;
    }
    assert CanTake(pr, i, item, layout);
    var placed := Rects(layout);
    var candidates, _ := CandidatePlacements(pr.f, item, placed, PrefersDoor(pr, items, item, latest));
    for c := 0 to |candidates|
      invariant found == None
      invariant LimitIsJustified(pr, classes, context) && AreLoadedKeys(pr, classes, i, start, explored')
      invariant old(context.limitReached) ==> context.limitReached
      invariant !context.limitReached ==>
                  FailuresHold(pr, classes, failed') && ExploredFail(pr, classes, i + 1, explored')
      invariant !context.limitReached ==>
                  forall final: Layout | item.id in final && final[item.id].rect in candidates[..c]
                                         && Loads(pr, true, i, items, k, layout, final) ::
                    !Solvable(pr, true, i + 1, final)
    {
      var ok := context.ConsumeNode();
      if !ok {
        return;
      }
      var r := candidates[c];
      assert r in candidates && IsCandidate(pr.f, item, placed, r);
      assert candidates[..c + 1] == candidates[..c] + [r];
      if SymmetryRejects(pr.steps, items, k, layout, r) {
        continue;
      }
      var accepted := IsAccepted(pr, i, items, k, layout, r);
      if !accepted {
        continue;
      }
      var next := layout[item.id := Place(item, r)];
      LoadOne(pr, i, items, k, layout, r);
      LeadsOn(pr, i, items, start, k, layout, r);
      found, failed', explored' := SearchLoadPlacements(
        pr, classes, latest, i, items, k + 1, next, order, prior, maxWeight, maxArea, context, failed', explored',
            start);
      if found.Some? {
        PlacedStep(pr, i, items, k, layout, r, order, prior, maxWeight, maxArea, found.value);
        return;
      }
      if context.limitReached {
        return;
      }
      forall final: Layout | item.id in final && final[item.id].rect == r
                             && Loads(pr, true, i, items, k, layout, final)
        ensures !Solvable(pr, true, i + 1, final)
      {
        assert Loads(pr, true, i, items, k + 1, next, final);
      }
    }
    assert candidates[..|candidates|] == candidates;
  }

  /** Path and unload-safety checks of one candidate. */
  method IsAccepted(pr: Problem, i: nat, items: seq<CargoItem>, k: nat, layout: Layout, r: Rect)
      returns (accepted: bool)
    requires pr.Valid() && i < |pr.stops| && k < |items| && LoadingInvariant(pr, i, items, k, layout)
    requires IsCandidate(pr.f, items[k], Rects(layout), r)
    requires !SymmetryRejects(pr.steps, items, k, layout, r)
    ensures accepted <==> Accepts(pr, true, items, k, layout, r)
  {
    hide CanEscape, UnloadSafe, SymmetryRejects, IsCandidate, Problem.Valid;
    ItemIsValid(pr, i, items, k, layout);
    CandidateStands(pr.f, items[k], Rects(layout), r);
    var clear := IsPathToDoorClear(pr.f, r, Rects(layout));
    if !clear {
      return false;
    }
    accepted := IsPlacementUnloadSafe(pr.f, items[k].id, r, layout, pr.steps, |pr.stops|);
  }

  /** One complete layout of stop `i`: skip it if an equivalent one was explored. */
  method SearchLoaded(
    pr: Problem, classes: Classes, latest: Option<nat>, i: nat, ghost items: seq<CargoItem>, layout: Layout,
    order: seq<ItemId>, prior: seq<Step>, maxWeight: int, maxArea: int,
    context: SearchContext, failed: Failures, explored: set<LayoutKey>, ghost start: Layout)
    returns (found: Option<Solution>, failed': Failures, explored': set<LayoutKey>)
    requires pr.Valid() && ClassesFor(pr, classes)
    requires i < |pr.stops| && LoadingInvariant(pr, i, items, |items|, layout)
    requires LeadsHere(pr, i, items, start, |items|, layout) && AreLoadedKeys(pr, classes, i, start, explored)
    requires LimitIsJustified(pr, classes, context)
    requires !context.limitReached ==> FailuresHold(pr, classes, failed) && ExploredFail(pr, classes, i + 1, explored)
    modifies context
    ensures LimitIsJustified(pr, classes, context) && AreLoadedKeys(pr, classes, i, start, explored')
    ensures old(context.limitReached) ==> context.limitReached
    ensures !context.limitReached ==> FailuresHold(pr, classes, failed')
    ensures found.Some? ==>
              ContinuesLoading(pr, i, items, |items|, layout, order, prior, maxWeight, maxArea, found.value)
    ensures found.None? && !context.limitReached ==> ExploredFail(pr, classes, i + 1, explored')
    ensures found.None? && !context.limitReached ==> !Solvable(pr, true, i + 1, layout)
    decreases |pr.stops| - i, 0, 0
  {
    hide LoadingInvariant, FloorInvariant, Problem.Valid, ClassesFor, FailuresHold, Solvable, TotalWeight, TotalArea,
         SearchSteps, ContinuesLoading, Continues, LeadsHere, AreLoadedKeys, HasManyLoadings;
    failed', explored', found := failed, explored, None;
    FinishLoading(pr, i, items, layout);
    var layoutKey := Key(classes, layout);
    if layoutKey in explored {
      return;
    }
    explored' := explored + {layoutKey};
    LoadedKeyAdded(pr, classes, i, items, start, layout, explored);
    if |explored'| > MAX_LAYOUTS_PER_STOP {
      context.limitReached, context.causes := true, context.causes + {TooManyLayouts};
      return;
    }
    var weight, area := MeasureLayout(layout);
    found, failed' := SearchStops(pr, classes, latest, i + 1, layout, prior + [Step(layout, order)],
                                  Max(maxWeight, weight), Max(maxArea, area), context, failed);
    if found.Some? {
      LoadedStep(pr, i, items, |items|, layout, order, prior, maxWeight, maxArea, found.value);
    } else if !context.limitReached {
      FailureSpreads(pr, classes, i + 1, layout);
    }
  }

  lemma AddFailure(pr: Problem, classes: Classes, i: nat, layout: Layout, failed: Failures)
    requires pr.Valid() && ClassesFor(pr, classes) && i <= |pr.stops| && FloorInvariant(pr, i, layout)
    requires !Solvable(pr, true, i, layout) && FailuresHold(pr, classes, failed)
    ensures FailuresHold(pr, classes, failed + {(i, Key(classes, layout))})
  {
    hide Solvable, FloorInvariant, Problem.Valid, ClassesFor, FailsAt;
    FailureSpreads(pr, classes, i, layout);
  }

  predicate HasRepeats(ids: seq<ItemId>) {
    exists j, k | 0 <= j < k < |ids| :: ids[j] == ids[k]
  }

  lemma UndeclaredUnloadFails(pr: Problem, i: nat, layout: Layout)
    requires i < |pr.stops|
    requires !(Elements(pr.stops[i].unloads) <= layout.Keys) || HasRepeats(pr.stops[i].unloads)
    ensures !Solvable(pr, true, i, layout)
  {
    if Solvable(pr, true, i, layout) {
      var steps: seq<Step> :| SearchSteps(pr, true, i, layout, steps);
      UnloadOrderDistinct(pr.f, layout, steps[0].unloadOrder);
      PermutationElements(steps[0].unloadOrder, pr.stops[i].unloads);
      ListsDistinct(steps[0].unloadOrder, pr.stops[i].unloads);
    }
  }

  lemma ListsDistinct(order: seq<ItemId>, ids: seq<ItemId>)
    requires multiset(order) == multiset(ids)
    requires forall j, k | 0 <= j < k < |order| :: order[j] != order[k]
    ensures !HasRepeats(ids)
  {
    forall j, k | 0 <= j < k < |ids|
      ensures ids[j] != ids[k]
    {
      Sorting.CountDistinct(order, ids[j]);
      assert ids == ids[..k] + ids[k..] && ids[j] in ids[..k] && ids[k] in ids[k..];
    }
  }

  lemma BlockedUnloadFails(pr: Problem, i: nat, layout: Layout)
    requires i < |pr.stops| && !CanUnload(pr.f, layout, Elements(pr.stops[i].unloads))
    ensures !Solvable(pr, true, i, layout)
  {
    if Solvable(pr, true, i, layout) {
      var steps: seq<Step> :| SearchSteps(pr, true, i, layout, steps);
      PermutationElements(steps[0].unloadOrder, pr.stops[i].unloads);
    }
  }

  lemma NoLoadingFails(pr: Problem, i: nat, layout: Layout)
    requires i < |pr.stops|
    requires forall final | Loads(pr, true, i, LoadOrder(pr, i), 0, layout - Elements(pr.stops[i].unloads), final) ::
               !Solvable(pr, true, i + 1, final)
    ensures !Solvable(pr, true, i, layout)
  {
    hide Loads, IsUnloadOrder;
    if Solvable(pr, true, i, layout) {
      var steps: seq<Step> :| SearchSteps(pr, true, i, layout, steps);
      assert SearchSteps(pr, true, i + 1, steps[0].layout, steps[1..]);
    }
  }

  lemma CutOffFails(pr: Problem, i: nat, layout: Layout)
    requires pr.Valid() && i < |pr.stops| && FloorInvariant(pr, i, layout)
    requires var cleared := layout - Elements(pr.stops[i].unloads);
             || TotalWeight(cleared) + LoadWeight(pr.stops[i].loads) > pr.f.payload
             || TotalArea(cleared) + LoadArea(pr.stops[i].loads) > pr.f.length * pr.f.width
    ensures !Solvable(pr, true, i, layout)
  {
    hide Loads, FloorInvariant, Problem.Valid, TotalWeight, TotalArea, LoadWeight, LoadArea;
    if Solvable(pr, true, i, layout) {
      var steps: seq<Step> :| SearchSteps(pr, true, i, layout, steps);
      CutOffsAreLossless(pr, true, i, layout, steps[0].layout);
    }
  }

  /** Search the plan from stop `i` on: unload, check the totals, load, go on. */
  method SearchStops(
    pr: Problem, classes: Classes, latest: Option<nat>, i: nat, layout: Layout,
    prior: seq<Step>, maxWeight: int, maxArea: int, context: SearchContext, failed: Failures)
    returns (found: Option<Solution>, failed': Failures)
    requires pr.Valid() && ClassesFor(pr, classes) && i <= |pr.stops| && FloorInvariant(pr, i, layout)
    requires !context.limitReached ==> FailuresHold(pr, classes, failed)
    requires LimitIsJustified(pr, classes, context)
    modifies context
    ensures LimitIsJustified(pr, classes, context)
    ensures old(context.limitReached) ==> context.limitReached
    ensures !context.limitReached ==> FailuresHold(pr, classes, failed')
    ensures found.Some? ==> Continues(pr, i, layout, prior, maxWeight, maxArea, found.value)
    ensures found.None? && !context.limitReached ==> !Solvable(pr, true, i, layout)
    decreases |pr.stops| - i, 2, 0
  {
    hide FloorInvariant, Problem.Valid, ClassesFor, Solvable, Loads, TotalWeight, TotalArea, CanUnload, IsUnloadOrder,
         ContinuesLoading, LoadingInvariant, FailsAt, LoadWeight, LoadArea, Key, LoadOrder, LeadsHere, AreLoadedKeys,
         HasManyLoadings;
    failed', found := failed, None;
    var ok := context.ConsumeNode();
    if !ok {
      return;
    }
    if i == |pr.stops| {
      found := Some(Solution(prior, maxWeight, maxArea));
      assert prior[|prior|..] == [];
      return;
    }
    var stateKey := (i, Key(classes, layout));
    if stateKey in failed {
      if !context.limitReached { KnownFailure(pr, classes, i, layout, failed); }
      return;
    }
    var stop := pr.stops[i];
    if !(Elements(stop.unloads) <= layout.Keys) || HasRepeats(stop.unloads) {
      UndeclaredUnloadFails(pr, i, layout);
      if !context.limitReached { AddFailure(pr, classes, i, layout, failed'); }
      failed' := failed' + {stateKey};
      return;
    }
    InvariantGood(pr, i, layout);
    var order := FindUnloadSequence(pr.f, layout, stop.unloads, context);
    if order.None? {
      if !context.limitReached {
        BlockedUnloadFails(pr, i, layout);
        AddFailure(pr, classes, i, layout, failed');
      }
      failed' := failed' + {stateKey};
      return;
    }
    var cleared := layout - Elements(order.value);
    PermutationElements(order.value, stop.unloads);
    var weight, area := MeasureLayout(cleared);
    if weight + LoadWeight(stop.loads) > pr.f.payload + WEIGHT_TOLERANCE
       || area + LoadArea(stop.loads) > pr.f.length * pr.f.width + AREA_TOLERANCE
    {
      CutOffFails(pr, i, layout);
      if !context.limitReached { AddFailure(pr, classes, i, layout, failed'); }
      failed' := failed' + {stateKey};
      return;
    }
    StartLoading(pr, i, layout);
    var explored;
    NothingLoadedYet(pr, classes, i, cleared);
    found, failed', explored := SearchLoadPlacements(
      pr, classes, latest, i, LoadOrder(pr, i), 0, cleared, order.value, prior, maxWeight, maxArea, context, failed',
          {}, cleared);
    if found.Some? {
      ContinuesLength(pr, i, LoadOrder(pr, i), 0, cleared, order.value, prior, maxWeight, maxArea, found.value);
      FoundStop(pr, i, layout, order.value, prior, maxWeight, maxArea, found.value);
      return;
    }
    if !context.limitReached {
      NoLoadingFails(pr, i, layout);
      AddFailure(pr, classes, i, layout, failed');
    }
    failed' := failed' + {stateKey};
  }

  lemma InvariantGood(pr: Problem, i: nat, layout: Layout)
    requires FloorInvariant(pr, i, layout)
    ensures GoodLayout(pr.f, layout)
  {
  }

  lemma KnownFailure(pr: Problem, classes: Classes, i: nat, layout: Layout, failed: Failures)
    requires FailuresHold(pr, classes, failed) && (i, Key(classes, layout)) in failed
    requires i <= |pr.stops| && FloorInvariant(pr, i, layout)
    ensures !Solvable(pr, true, i, layout)
  {
    hide Solvable, FloorInvariant, Key;
    assert FailsAt(pr, classes, i, Key(classes, layout));
  }
}
