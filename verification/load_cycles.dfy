/** Splitting a plan where the truck is empty, and validating the plan cycle by cycle. */
module LoadCycles {
  import opened Prelude
  import opened Geometry
  import opened Replay
  import opened UnloadSafety
  import opened UnloadSearch
  import opened LayoutSpace
  import opened LayoutClasses
  import opened SpatialValidator

  function Flatten(cycles: seq<seq<Stop>>): seq<Stop> {
    if cycles == [] then [] else cycles[0] + Flatten(cycles[1..])
  }

  lemma {:induction false} FlattenAppend(cycles: seq<seq<Stop>>, last: seq<Stop>)
    ensures Flatten(cycles + [last]) == Flatten(cycles) + last
  {
    if cycles == [] {
      assert [last][1..] == [];
    } else {
      FlattenAppend(cycles[1..], last);
      assert (cycles + [last])[1..] == cycles[1..] + [last];
    }
  }

  lemma {:induction false} AboardAppend(stops: seq<Stop>, stop: Stop, start: set<ItemId>)
    ensures Aboard(stops + [stop], start) == Aboard(stops, start) - Elements(stop.unloads) + LoadIds(stop.loads)
    decreases |stops|
  {
    if stops == [] {
      assert [stop][1..] == [];
    } else {
      AboardAppend(stops[1..], stop, start - Elements(stops[0].unloads) + LoadIds(stops[0].loads));
      assert (stops + [stop])[1..] == stops[1..] + [stop];
    }
  }

  /** All cycles but the last are non-empty and leave the truck empty. */
  ghost predicate EmptyBoundaries(cycles: seq<seq<Stop>>) {
    forall c | 0 <= c < |cycles| - 1 :: cycles[c] != [] && Aboard(cycles[c], {}) == {}
  }

  /** What stop `k` declares fits what is aboard when it is reached. */
  ghost predicate CleanAt(stops: seq<Stop>, k: nat)
    requires k < |stops|
  {
    var aboard, stop := Aboard(stops[..k], {}), stops[k];
    && !HasRepeats(stop.unloads) && Elements(stop.unloads) <= aboard
    && !HasRepeats(Ids(stop.loads)) && (aboard - Elements(stop.unloads)) !! LoadIds(stop.loads)
  }

  function Ids(loads: seq<CargoItem>): (ids: seq<ItemId>)
    ensures Elements(ids) == LoadIds(loads)
  {
    var ids := seq(|loads|, n requires 0 <= n < |loads| => loads[n].id);
    assert forall n | 0 <= n < |loads| :: ids[n] in ids && ids[n] == loads[n].id;
    ids
  }

  /** Inside a cycle the truck is never empty between two stops. */
  ghost predicate Tight(cycle: seq<Stop>) {
    forall k | 0 < k < |cycle| :: Aboard(cycle[..k], {}) != {}
  }

  /** The cycles of a plan: cut at every empty truck, unless some declaration does not
      fit what is aboard, in which case the plan is kept whole. */
  ghost predicate IsSplit(stops: seq<Stop>, cycles: seq<seq<Stop>>) {
    && Flatten(cycles) == stops
    && EmptyBoundaries(cycles)
    && if forall k | 0 <= k < |stops| :: CleanAt(stops, k)
       then |cycles| > 0 && forall c | 0 <= c < |cycles| :: Tight(cycles[c])
       else cycles == [stops]
  }

  lemma {:induction false} AboardJoins(a: seq<Stop>, b: seq<Stop>, start: set<ItemId>)
    ensures Aboard(a + b, start) == Aboard(b, Aboard(a, start))
    decreases |a|
  {
    if a == [] {
      assert a + b == b;
    } else {
      assert (a + b)[1..] == a[1..] + b;
      AboardJoins(a[1..], b, start - Elements(a[0].unloads) + LoadIds(a[0].loads));
    }
  }

  lemma SameSinceCut(stops: seq<Stop>, cut: nat, k: nat)
    requires cut <= k <= |stops| && Aboard(stops[..cut], {}) == {}
    ensures Aboard(stops[cut..k], {}) == Aboard(stops[..k], {})
  {
    assert stops[..k] == stops[..cut] + stops[cut..k];
    AboardJoins(stops[..cut], stops[cut..k], {});
  }

  lemma NextAboard(stops: seq<Stop>, k: nat)
    requires k < |stops|
    ensures Aboard(stops[..k + 1], {}) == Aboard(stops[..k], {}) - Elements(stops[k].unloads) + LoadIds(stops[k].loads)
  {
    assert stops[..k + 1] == stops[..k] + [stops[k]];
    AboardAppend(stops[..k], stops[k], {});
  }

  lemma CutHere(stops: seq<Stop>, cycles: seq<seq<Stop>>, cut: nat, k: nat)
    requires cut < k <= |stops| && Flatten(cycles) == stops[..cut] && Aboard(stops[..cut], {}) == {}
    requires forall m | cut < m < k :: Aboard(stops[..m], {}) != {}
    ensures Flatten(cycles + [stops[cut..k]]) == stops[..k]
    ensures Tight(stops[cut..k])
    ensures Aboard(stops[cut..k], {}) == Aboard(stops[..k], {})
  {
    hide Aboard;
    FlattenAppend(cycles, stops[cut..k]);
    assert stops[..cut] + stops[cut..k] == stops[..k];
    SameSinceCut(stops, cut, k);
    forall m | 0 < m < k - cut
      ensures Aboard(stops[cut..k][..m], {}) != {}
    {
      var part, longer := stops[cut..k][..m], stops[cut..cut + m];
      assert |part| == |longer| && forall j | 0 <= j < m :: part[j] == longer[j];
      assert part == longer;
      SameSinceCut(stops, cut, cut + m);
    }
  }

  lemma KeptWhole(stops: seq<Stop>, k: nat)
    requires k < |stops| && !CleanAt(stops, k)
    ensures IsSplit(stops, [stops])
  {
    FlattenAppend([], stops);
    assert [] + [stops] == [stops];
  }

  lemma NothingFlattened()
    ensures Flatten([]) == [] && Aboard([], {}) == {}
  {
  }

  method SplitIndependentLoadCycles(stops: seq<Stop>) returns (cycles: seq<seq<Stop>>)
    ensures IsSplit(stops, cycles)
  {
    hide Flatten, Aboard, LoadIds, Elements, CleanAt, Tight;
    NothingFlattened();
    if stops == [] {
      EmptyPlanSplit();
      return [stops];
    }
    var onboard: set<ItemId> := {};
    var cycleStart := 0;
    cycles := [];
    assert stops[..0] == [];
    for k := 0 to |stops|
      invariant 0 <= cycleStart <= k && (k == |stops| ==> cycleStart < k)
      invariant onboard == Aboard(stops[..k], {}) && Aboard(stops[..cycleStart], {}) == {}
      invariant Flatten(cycles) == stops[..cycleStart]
      invariant forall j | 0 <= j < k :: CleanAt(stops, j)
      invariant forall m | cycleStart < m <= k && m < |stops| :: Aboard(stops[..m], {}) != {}
      invariant forall c | 0 <= c < |cycles| :: cycles[c] != [] && Aboard(cycles[c], {}) == {} && Tight(cycles[c])
    {
      var stop := stops[k];
      DecideClean(stops, k);
      if HasRepeats(stop.unloads) || !(Elements(stop.unloads) <= onboard) {
        KeptWhole(stops, k);
        return [stops];
      }
      onboard := onboard - Elements(stop.unloads);
      if HasRepeats(Ids(stop.loads)) || onboard * LoadIds(stop.loads) != {} {
        KeptWhole(stops, k);
        return [stops];
      }
      onboard := onboard + LoadIds(stop.loads);
      NextAboard(stops, k);
      if onboard == {} && k + 1 < |stops| {
        CutHere(stops, cycles, cycleStart, k + 1);
        cycles := cycles + [stops[cycleStart..k + 1]];
        cycleStart := k + 1;
      }
    }
    CutHere(stops, cycles, cycleStart, |stops|);
    assert stops[..|stops|] == stops && stops[cycleStart..|stops|] == stops[cycleStart..];
    cycles := cycles + [stops[cycleStart..]];
  }

  lemma EmptyPlanSplit()
    ensures IsSplit([], [[]])
  {
    assert Flatten([[]]) == [] + Flatten([]);
  }

  lemma DecideClean(stops: seq<Stop>, k: nat)
    requires k < |stops|
    ensures CleanAt(stops, k) <==>
            && !HasRepeats(stops[k].unloads) && Elements(stops[k].unloads) <= Aboard(stops[..k], {})
            && !HasRepeats(Ids(stops[k].loads))
            && (Aboard(stops[..k], {}) - Elements(stops[k].unloads)) * LoadIds(stops[k].loads) == {}
  {
  }

  lemma {:induction false} FlattenValid(cycles: seq<seq<Stop>>)
    requires ValidPlan(Flatten(cycles))
    ensures forall c | 0 <= c < |cycles| :: ValidPlan(cycles[c])
  {
    if cycles == [] {
    } else {
      var first, rest := cycles[0], Flatten(cycles[1..]);
      assert Flatten(cycles) == first + rest;
      PlanParts(first, rest);
      FlattenValid(cycles[1..]);
      forall c | 0 <= c < |cycles|
        ensures ValidPlan(cycles[c])
      {
        if c > 0 { assert cycles[c] == cycles[1..][c - 1]; }
      }
    }
  }

  lemma PlanParts(a: seq<Stop>, b: seq<Stop>)
    requires ValidPlan(a + b)
    ensures ValidPlan(a) && ValidPlan(b)
  {
    assert forall k | 0 <= k < |a| :: (a + b)[k] == a[k];
    assert forall k | 0 <= k < |b| :: (a + b)[|a| + k] == b[k];
  }

  /** Splitting is faithful: the whole plan can be executed exactly when each cycle can. */
  lemma {:induction false} SplitIsFaithful(f: Floor, cycles: seq<seq<Stop>>)
    requires f.payload >= 0 && ValidPlan(Flatten(cycles)) && EmptyBoundaries(cycles)
    ensures CanReplay(f, Flatten(cycles)) <==> forall c | 0 <= c < |cycles| :: CanReplay(f, cycles[c])
  {
    hide CanReplay;
    if cycles == [] {
      NothingToReplay(f);
    } else {
      var first, rest := cycles[0], cycles[1..];
      FlattenValid(cycles);
      assert Flatten(cycles) == first + Flatten(rest);
      PlanParts(first, Flatten(rest));
      forall c | 0 <= c < |rest| - 1
        ensures rest[c] != [] && Aboard(rest[c], {}) == {}
      {
        assert rest[c] == cycles[c + 1];
      }
      SplitIsFaithful(f, rest);
      if |cycles| > 1 {
        EmptyBoundarySplits(f, first, Flatten(rest));
      } else {
        assert first + Flatten(rest) == first;
      }
      assert forall c | 0 < c < |cycles| :: cycles[c] == rest[c - 1];
      assert forall c | 0 <= c < |rest| :: rest[c] == cycles[c + 1];
    }
  }

  lemma NothingToReplay(f: Floor)
    ensures CanReplay(f, [])
  {
    assert LegalReplay(f, [], map[], []);
  }

  // ---------- one cycle ----------

  datatype FloorState = FloorState(stepIndex: nat, layout: Layout, unloadSequence: seq<ItemId>)

  datatype ValidationResult =
    | Valid(maxWeight: int, maxArea: int, states: seq<FloorState>)
    | Invalid(limitReached: bool)

  function StepsOf(states: seq<FloorState>): seq<Step> {
    seq(|states|, k requires 0 <= k < |states| => Step(states[k].layout, states[k].unloadSequence))
  }

  function BuildFloorStates(steps: seq<Step>, offset: nat): (states: seq<FloorState>)
    ensures StepsOf(states) == steps
    ensures |states| == |steps| && forall k | 0 <= k < |states| :: states[k].stepIndex == offset + k + 1
  {
    seq(|steps|, k requires 0 <= k < |steps| => FloorState(offset + k + 1, steps[k].layout, steps[k].unloadOrder))
  }

  ghost predicate ValidFloor(f: Floor) {
    f.length > 0 && f.width > 0 && f.height > 0 && f.payload > 0
  }

  /** Some run of the searched space, without pruning, executes the whole cycle. */
  ghost predicate CycleSolvable(f: Floor, stops: seq<Stop>) {
    exists steps: UnloadSteps :: UnloadStepsFor(stops, steps) && Solvable(Problem(f, stops, steps), false, 0, map[])
  }

  lemma UnloadStepsUnique(stops: seq<Stop>, a: UnloadSteps, b: UnloadSteps)
    requires UnloadStepsFor(stops, a) && UnloadStepsFor(stops, b)
    ensures a == b
  {
    assert forall id | id in a :: FirstUnloadAt(stops, id, a[id]);
    assert forall id | id in b :: FirstUnloadAt(stops, id, b[id]);
  }

  /** A valid result is a legal replay, numbered 1 to n, with the true maxima. */
  ghost predicate Reports(f: Floor, stops: seq<Stop>, result: ValidationResult)
    requires result.Valid?
  {
    var steps := StepsOf(result.states);
    && LegalReplay(f, stops, map[], steps)
    && (forall k | 0 <= k < |result.states| :: result.states[k].stepIndex == k + 1)
    && result.maxWeight == MaxWeightOver(0, steps)
    && result.maxArea == MaxAreaOver(0, steps)
  }

  lemma SolvableSpaceIsSound(f: Floor, stops: seq<Stop>)
    requires ValidFloor(f) && ValidPlan(stops) && CycleSolvable(f, stops)
    ensures CanReplay(f, stops)
  {
    var u: UnloadSteps :| UnloadStepsFor(stops, u) && Solvable(Problem(f, stops, u), false, 0, map[]);
    var pr := Problem(f, stops, u);
    var steps: seq<Step> :| SearchSteps(pr, false, 0, map[], steps);
    EmptyFloorInvariant(pr);
    SearchStepsAreLegal(pr, false, 0, map[], steps);
    assert stops[0..] == stops;
  }

  /** A stop of the cycle really has more loadings, up to class, than are tried. */
  ghost predicate StopHasManyLoadings(f: Floor, stops: seq<Stop>) {
    exists pr: Problem, classes: Classes ::
      && pr.Valid() && pr.f == f && pr.stops == stops
      && ClassesOfLast(pr, Declared(pr.stops), classes) && HasManyLoadings(pr, classes)
  }

  /** Why no verdict was reached: all nodes were visited, time was up, or a stop has more
      than 32 different loadings. */
  ghost predicate JustifiesLimit(f: Floor, stops: seq<Stop>, maxNodes: nat, visitedNodes: nat, why: set<LimitCause>) {
    && why != {} && (NodesUsedUp in why ==> visitedNodes == maxNodes)
    && (TooManyLayouts in why ==> StopHasManyLoadings(f, stops))
  }

  /** Within the budget the verdict is exact for the searched space, pruned or not, and the
      budget is said to be exceeded only for a cause. */
  method ValidateLoadCycle(f: Floor, stops: seq<Stop>, maxNodes: nat)
      returns (result: ValidationResult, ghost why: set<LimitCause>, ghost visitedNodes: nat)
    requires ValidFloor(f) && ValidPlan(stops)
    ensures result.Invalid? && result.limitReached ==> JustifiesLimit(f, stops, maxNodes, visitedNodes, why)
    ensures result.Valid? ==> Reports(f, stops, result) && CycleSolvable(f, stops)
    ensures result.Invalid? && !result.limitReached ==> !CycleSolvable(f, stops)
  {
    var unloadSteps := BuildUnloadSteps(stops);
    var pr := Problem(f, stops, unloadSteps);
    var context := new SearchContext(maxNodes);
    var classes := BuildItemClasses(pr);
    var latest := LatestUnloadStep(unloadSteps);
    EmptyFloorInvariant(pr);
    var found, failed := SearchStops(pr, classes, latest, 0, map[], [], 0, 0, context, {});
    why, visitedNodes := context.causes, context.visitedNodes;
    if found.Some? {
      var s := found.value;
      FoundReports(pr, s);
      return Valid(s.maxWeight, s.maxArea, BuildFloorStates(s.steps, 0)), why, visitedNodes;
    }
    if !context.limitReached {
      NoRunNoCycle(pr);
    } else {
      LimitJustified(pr, classes, maxNodes, visitedNodes, why);
    }
    return Invalid(context.limitReached), why, visitedNodes;
  }

  lemma LimitJustified(pr: Problem, classes: Classes, maxNodes: nat, visitedNodes: nat, why: set<LimitCause>)
    requires pr.Valid() && ClassesOfLast(pr, Declared(pr.stops), classes)
    requires why != {} && (NodesUsedUp in why ==> visitedNodes == maxNodes)
    requires TooManyLayouts in why ==> HasManyLoadings(pr, classes)
    ensures JustifiesLimit(pr.f, pr.stops, maxNodes, visitedNodes, why)
  {
  }

  lemma FoundReports(pr: Problem, s: Solution)
    requires pr.Valid() && Continues(pr, 0, map[], [], 0, 0, s)
    ensures Reports(pr.f, pr.stops, Valid(s.maxWeight, s.maxArea, BuildFloorStates(s.steps, 0)))
    ensures CycleSolvable(pr.f, pr.stops)
  {
    hide SearchSteps, LegalReplay, Problem.Valid;
    assert s.steps[0..] == s.steps && pr.stops[0..] == pr.stops;
    EmptyFloorInvariant(pr);
    SearchStepsAreLegal(pr, true, 0, map[], s.steps);
    PruningIsLossless(pr, 0, map[], s.steps);
    assert StepsOf(BuildFloorStates(s.steps, 0)) == s.steps;
    assert UnloadStepsFor(pr.stops, pr.steps) by { ProblemSteps(pr); }
    assert Problem(pr.f, pr.stops, pr.steps) == pr;
  }

  lemma ProblemSteps(pr: Problem)
    requires pr.Valid()
    ensures UnloadStepsFor(pr.stops, pr.steps)
  {
  }

  lemma NoRunNoCycle(pr: Problem)
    requires pr.Valid() && !Solvable(pr, true, 0, map[])
    ensures !CycleSolvable(pr.f, pr.stops)
  {
    hide SearchSteps;
    if CycleSolvable(pr.f, pr.stops) {
      var u: UnloadSteps :| UnloadStepsFor(pr.stops, u) && Solvable(Problem(pr.f, pr.stops, u), false, 0, map[]);
      UnloadStepsUnique(pr.stops, u, pr.steps);
      var steps: seq<Step> :| SearchSteps(pr, false, 0, map[], steps);
      EmptyFloorInvariant(pr);
      PruningIsLossless(pr, 0, map[], steps);
    }
  }

  // ---------- the whole plan ----------

  lemma {:induction false} MaximaJoin(w: int, v: int, a: seq<Step>, b: seq<Step>)
    ensures MaxWeightOver(Max(w, v), a + b) == Max(MaxWeightOver(w, a), MaxWeightOver(v, b))
    ensures MaxAreaOver(Max(w, v), a + b) == Max(MaxAreaOver(w, a), MaxAreaOver(v, b))
    decreases |a| + |b|
  {
    hide TotalWeight, TotalArea;
    if a != [] {
      assert (a + b)[1..] == a[1..] + b && (a + b)[0] == a[0];
      var x, y := TotalWeight(a[0].layout), TotalArea(a[0].layout);
      assert Max(Max(w, v), x) == Max(Max(w, x), v) && Max(Max(w, v), y) == Max(Max(w, y), v);
      MaximaJoin(Max(w, x), v, a[1..], b);
      MaximaJoin(Max(w, y), v, a[1..], b);
    } else if b != [] {
      assert a + b == b && [] + b[1..] == b[1..];
      var x, y := TotalWeight(b[0].layout), TotalArea(b[0].layout);
      assert Max(Max(w, v), x) == Max(w, Max(v, x)) && Max(Max(w, v), y) == Max(w, Max(v, y));
      MaximaJoin(w, Max(v, x), [], b[1..]);
      MaximaJoin(w, Max(v, y), [], b[1..]);
    } else {
      assert a + b == [];
    }
  }

  /** The result of the cycles so far, extended by one more valid cycle. */
  lemma CycleJoins(f: Floor, first: seq<Stop>, second: seq<Stop>, a: ValidationResult, b: ValidationResult,
      states: seq<FloorState>)
    requires f.payload >= 0 && ValidPlan(first) && Aboard(first, {}) == {}
    requires a.Valid? && b.Valid? && Reports(f, first, a) && Reports(f, second, b)
    requires states == a.states + BuildFloorStates(StepsOf(b.states), |first|)
    ensures Reports(f, first + second, Valid(Max(a.maxWeight, b.maxWeight), Max(a.maxArea, b.maxArea), states))
  {
    hide LegalReplay, MaxWeightOver, MaxAreaOver, Aboard, ValidPlan;
    var p, q := StepsOf(a.states), StepsOf(b.states);
    ReplayLength(f, first, map[], p);
    NumbersJoin(a.states, b.states, states);
    EmptyBoundaryJoins(f, first, second, p, q);
    MaximaJoin(0, 0, p, q);
  }

  lemma NumbersJoin(a: seq<FloorState>, b: seq<FloorState>, states: seq<FloorState>)
    requires states == a + BuildFloorStates(StepsOf(b), |a|)
    requires forall k | 0 <= k < |a| :: a[k].stepIndex == k + 1
    ensures StepsOf(states) == StepsOf(a) + StepsOf(b)
    ensures forall k | 0 <= k < |states| :: states[k].stepIndex == k + 1
  {
  }

  lemma EmptyBoundaryJoins(f: Floor, first: seq<Stop>, second: seq<Stop>, p: seq<Step>, q: seq<Step>)
    requires f.payload >= 0 && ValidPlan(first) && Aboard(first, {}) == {}
    requires LegalReplay(f, first, map[], p) && LegalReplay(f, second, map[], q)
    ensures LegalReplay(f, first + second, map[], p + q)
  {
    hide LegalStop, Aboard;
    EmptyAfter(f, first, p);
    ReplaysJoin(f, first, second, first + second, map[], p, q, p + q);
  }

  lemma ReplayLength(f: Floor, stops: seq<Stop>, start: Layout, steps: seq<Step>)
    requires LegalReplay(f, stops, start, steps)
    ensures |steps| == |stops|
  {
  }

  /** Validate a plan cycle by cycle; steps are numbered across cycles. */
  method ValidatePlan(f: Floor, stops: seq<Stop>, maxNodes: nat)
    returns (result: ValidationResult, ghost split: seq<seq<Stop>>, ghost why: set<LimitCause>,
      ghost visitedNodes: nat)
    requires ValidFloor(f) && ValidPlan(stops)
    ensures IsSplit(stops, split)
    ensures result.Valid? ==> Reports(f, stops, result) && CanReplay(f, stops)
    ensures result.Valid? ==> forall c | 0 <= c < |split| :: CycleSolvable(f, split[c])
    ensures result.Invalid? && !result.limitReached ==> exists c | 0 <= c < |split| :: !CycleSolvable(f, split[c])
    ensures result.Invalid? && result.limitReached ==>
              exists c | 0 <= c < |split| :: JustifiesLimit(f, split[c], maxNodes, visitedNodes, why)
  {
    hide JustifiesLimit, CycleSolvable, LegalReplay, ValidPlan, Reports, CleanAt, Tight;
    var cycles := SplitIndependentLoadCycles(stops);
    split, why, visitedNodes := cycles, {}, 0;
    if |cycles| <= 1 {
      OneCycle(cycles);
      result, why, visitedNodes := ValidateLoadCycle(f, stops, maxNodes);
      if result.Valid? {
        ReportsReplay(f, stops, result);
      }
      return;
    }
    FlattenValid(cycles);
    var states: seq<FloorState> := [];
    var maxWeight, maxArea, stepOffset := 0, 0, 0;
    ghost var done: seq<Stop> := [];
    NothingReported(f);
    NothingFlattened();
    for c := 0 to |cycles|
      invariant done == Flatten(cycles[..c]) && ValidPlan(done) && stepOffset == |done|
      invariant c < |cycles| ==> Aboard(done, {}) == {}
      invariant Reports(f, done, Valid(maxWeight, maxArea, states))
      invariant forall b | 0 <= b < c :: CycleSolvable(f, cycles[b])
    {
      var cycle := cycles[c];
      var cycleResult;
      cycleResult, why, visitedNodes := ValidateLoadCycle(f, cycle, maxNodes);
      if cycleResult.Invalid? {
        return cycleResult, cycles, why, visitedNodes;
      }
      var adjusted := BuildFloorStates(StepsOf(cycleResult.states), stepOffset);
      CycleJoins(f, done, cycle, Valid(maxWeight, maxArea, states), cycleResult, states + adjusted);
      maxWeight, maxArea := Max(maxWeight, cycleResult.maxWeight), Max(maxArea, cycleResult.maxArea);
      states := states + adjusted;
      stepOffset := stepOffset + |cycle|;
      FlattenAppend(cycles[..c], cycle);
      assert cycles[..c + 1] == cycles[..c] + [cycle];
      PlanJoins(done, cycle);
      AboardJoins(done, cycle, {});
      done := done + cycle;
    }
    assert cycles[..|cycles|] == cycles;
    result := Valid(maxWeight, maxArea, states);
    ReportsReplay(f, stops, result);
  }

  lemma ReportsReplay(f: Floor, stops: seq<Stop>, result: ValidationResult)
    requires result.Valid? && Reports(f, stops, result)
    ensures CanReplay(f, stops)
  {
  }

  lemma OneCycle(cycles: seq<seq<Stop>>)
    requires |cycles| == 1
    ensures cycles == [Flatten(cycles)]
  {
    assert Flatten(cycles[1..]) == [] && cycles[0] + [] == cycles[0];
  }

  lemma NothingReported(f: Floor)
    ensures Reports(f, [], Valid(0, 0, [])) && ValidPlan([])
  {
    assert StepsOf([]) == [];
  }

  lemma PlanJoins(a: seq<Stop>, b: seq<Stop>)
    requires ValidPlan(a) && ValidPlan(b)
    ensures ValidPlan(a + b)
  {
  }
}
