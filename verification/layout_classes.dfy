/** Packages of one class are interchangeable for the rest of the plan, which is what
    lets the search remember failures, and skip layouts, up to class. */
module LayoutClasses {
  import opened Prelude
  import opened Geometry
  import opened Replay
  import opened UnloadSafety
  import opened UnloadSearch
  import opened Sorting
  import opened LayoutSpace

  datatype ItemClass =
    | ItemClass(orderId: nat, length: int, width: int, height: int, weight: int, canRotate: bool, unloadStep: int)
    | Unclassed(id: ItemId)

  type Classes = map<ItemId, ItemClass>

  /** Class and footprint of every package aboard, in no order; no two packages share a footprint. */
  type LayoutKey = set<(ItemClass, Rect)>

  function ClassFor(pr: Problem, item: CargoItem): ItemClass {
    ItemClass(item.orderId, item.length, item.width, item.height, item.weight, item.canRotate,
              if item.id in pr.steps then pr.steps[item.id] else -1)
  }

  /** Two packages are of one class exactly when they belong to one order, measure and weigh
      the same, may both be turned or not, and leave at the same stop or never. */
  lemma SameClassIff(pr: Problem, a: CargoItem, b: CargoItem)
    ensures ClassFor(pr, a) == ClassFor(pr, b) <==>
            && a.orderId == b.orderId && a.length == b.length && a.width == b.width && a.height == b.height
            && a.weight == b.weight && a.canRotate == b.canRotate
            && (a.id in pr.steps <==> b.id in pr.steps)
            && (a.id in pr.steps && b.id in pr.steps ==> pr.steps[a.id] == pr.steps[b.id])
  {
  }

  function ClassOf(classes: Classes, id: ItemId): ItemClass {
    if id in classes then classes[id] else Unclassed(id)
  }

  function Key(classes: Classes, layout: Layout): LayoutKey {
    set i | i in layout :: (ClassOf(classes, i), layout[i].rect)
  }

  ghost predicate ClassesFor(pr: Problem, classes: Classes) {
    forall id | id in classes :: exists item: CargoItem :: item.id == id && classes[id] == ClassFor(pr, item)
  }

  /** All declarations to load something, in plan order. */
  function Declared(stops: seq<Stop>): seq<CargoItem> {
    if stops == [] then [] else Declared(stops[..|stops| - 1]) + stops[|stops| - 1].loads
  }

  /** Exactly the declared items have a class, and it is that of their last declaration. */
  ghost predicate ClassesOfLast(pr: Problem, items: seq<CargoItem>, classes: Classes) {
    && (forall id :: id in classes <==> exists k :: 0 <= k < |items| && items[k].id == id)
    && forall k | 0 <= k < |items| && IsLast(items, k) ::
         items[k].id in classes && classes[items[k].id] == ClassFor(pr, items[k])
  }

  predicate IsLast(items: seq<CargoItem>, k: nat)
    requires k < |items|
  {
    forall m | k < m < |items| :: items[m].id != items[k].id
  }

  lemma LastOfLonger(items: seq<CargoItem>, item: CargoItem, k: nat)
    requires k < |items| && IsLast(items + [item], k)
    ensures IsLast(items, k) && items[k].id != item.id
  {
    var longer := items + [item];
    assert longer[|items|].id != longer[k].id;
    forall m | k < m < |items|
      ensures items[m].id != items[k].id
    {
      assert longer[m].id != longer[k].id;
    }
  }

  lemma MentionedInLonger(items: seq<CargoItem>, item: CargoItem, id: ItemId)
    ensures (exists k :: 0 <= k < |items + [item]| && (items + [item])[k].id == id) <==>
            (id == item.id || exists k :: 0 <= k < |items| && items[k].id == id)
  {
    var longer := items + [item];
    assert longer[|items|] == item;
    assert forall k | 0 <= k < |items| :: longer[k] == items[k];
  }

  lemma OneMoreDeclared(pr: Problem, items: seq<CargoItem>, item: CargoItem, classes: Classes)
    requires ClassesOfLast(pr, items, classes) && ClassesFor(pr, classes)
    ensures ClassesOfLast(pr, items + [item], classes[item.id := ClassFor(pr, item)])
    ensures ClassesFor(pr, classes[item.id := ClassFor(pr, item)])
  {
    hide IsLast, ClassFor;
    var longer, more := items + [item], classes[item.id := ClassFor(pr, item)];
    forall id
      ensures id in more <==> exists k :: 0 <= k < |longer| && longer[k].id == id
    {
      MentionedInLonger(items, item, id);
    }
    forall k | 0 <= k < |longer| && IsLast(longer, k)
      ensures longer[k].id in more && more[longer[k].id] == ClassFor(pr, longer[k])
    {
      if k < |items| {
        LastOfLonger(items, item, k);
      }
    }
  }

  method BuildItemClasses(pr: Problem) returns (classes: Classes)
    ensures ClassesOfLast(pr, Declared(pr.stops), classes)
    ensures ClassesFor(pr, classes)
  {
    hide ClassesOfLast, ClassesFor;
    classes := map[];
    NothingDeclared(pr);
    for k := 0 to |pr.stops|
      invariant ClassesOfLast(pr, Declared(pr.stops[..k]), classes) && ClassesFor(pr, classes)
    {
      var loads := pr.stops[k].loads;
      ghost var before := Declared(pr.stops[..k]);
      assert before + loads[..0] == before;
      for n := 0 to |loads|
        invariant ClassesOfLast(pr, before + loads[..n], classes) && ClassesFor(pr, classes)
      {
        OneMoreDeclared(pr, before + loads[..n], loads[n], classes);
        assert before + loads[..n + 1] == before + loads[..n] + [loads[n]];
        classes := classes[loads[n].id := ClassFor(pr, loads[n])];
      }
      assert loads[..|loads|] == loads && pr.stops[..k + 1][..k] == pr.stops[..k];
    }
    assert pr.stops[..|pr.stops|] == pr.stops;
  }

  lemma NothingDeclared(pr: Problem)
    ensures ClassesOfLast(pr, Declared(pr.stops[..0]), map[]) && ClassesFor(pr, map[])
  {
  }

  // ---------- what the rest of the plan depends on ----------

  /** Footprints with the stop at which they leave. */
  ghost function StepView(pr: Problem, layout: Layout): set<(nat, Rect)> {
    set i | i in layout :: (pr.Step(i), layout[i].rect)
  }

  lemma ClassDeterminesStep(pr: Problem, classes: Classes, i: ItemId, j: ItemId)
    requires ClassesFor(pr, classes) && ClassOf(classes, i) == ClassOf(classes, j)
    ensures pr.Step(i) == pr.Step(j)
  {
  }

  lemma KeyDeterminesView(pr: Problem, classes: Classes, a: Layout, b: Layout)
    requires ClassesFor(pr, classes) && Key(classes, a) == Key(classes, b)
    ensures StepView(pr, a) == StepView(pr, b)
  {
    KeyGivesView(pr, classes, a, b);
    KeyGivesView(pr, classes, b, a);
  }

  lemma KeyGivesView(pr: Problem, classes: Classes, a: Layout, b: Layout)
    requires ClassesFor(pr, classes) && Key(classes, a) <= Key(classes, b)
    ensures StepView(pr, a) <= StepView(pr, b)
  {
    forall i | i in a
      ensures (pr.Step(i), a[i].rect) in StepView(pr, b)
    {
      assert (ClassOf(classes, i), a[i].rect) in Key(classes, b);
      var j :| j in b && ClassOf(classes, j) == ClassOf(classes, i) && b[j].rect == a[i].rect;
      ClassDeterminesStep(pr, classes, i, j);
    }
  }

  lemma FootprintsDiffer(f: Floor, layout: Layout, i: ItemId, j: ItemId)
    requires GoodLayout(f, layout) && i in layout && j in layout && i != j
    ensures layout[i].rect != layout[j].rect
  {
    assert layout[i].rect.Solid() && !IsOverlap(layout[i].rect, layout[j].rect);
  }

  lemma ViewGivesRects(pr: Problem, a: Layout, b: Layout)
    requires StepView(pr, a) == StepView(pr, b)
    ensures Rects(a) == Rects(b)
  {
    ViewCoversRects(pr, a, b);
    ViewCoversRects(pr, b, a);
  }

  lemma ViewCoversRects(pr: Problem, a: Layout, b: Layout)
    requires StepView(pr, a) <= StepView(pr, b)
    ensures Rects(a) <= Rects(b)
  {
    forall i | i in a
      ensures a[i].rect in Rects(b)
    {
      assert (pr.Step(i), a[i].rect) in StepView(pr, b);
    }
  }

  ghost function ViewAfter(view: set<(nat, Rect)>, step: nat): set<Rect> {
    set v | v in view && v.0 > step :: v.1
  }

  lemma LaterRectsFromView(pr: Problem, layout: Layout, step: nat)
    ensures LaterRects(layout, pr.steps, |pr.stops|, step) == ViewAfter(StepView(pr, layout), step)
  {
    forall i | i in layout && pr.Step(i) > step
      ensures layout[i].rect in ViewAfter(StepView(pr, layout), step)
    {
      assert (pr.Step(i), layout[i].rect) in StepView(pr, layout);
    }
  }

  lemma UnloadSafeFromView(pr: Problem, a: Layout, b: Layout, id: ItemId, r: Rect)
    requires StepView(pr, a) == StepView(pr, b)
    requires UnloadSafe(pr.f, id, r, a, pr.steps, |pr.stops|)
    ensures UnloadSafe(pr.f, id, r, b, pr.steps, |pr.stops|)
  {
    hide CanEscape;
    LaterRectsFromView(pr, a, pr.Step(id));
    LaterRectsFromView(pr, b, pr.Step(id));
    forall t | t in b && pr.Step(t) < pr.Step(id)
      ensures CanEscape(pr.f, b[t].rect, LaterRects(b, pr.steps, |pr.stops|, pr.Step(t)) + {r})
    {
      assert (pr.Step(t), b[t].rect) in StepView(pr, a);
      var u :| u in a && pr.Step(u) == pr.Step(t) && a[u].rect == b[t].rect;
      LaterRectsFromView(pr, a, pr.Step(t));
      LaterRectsFromView(pr, b, pr.Step(t));
    }
  }

  lemma RemoveFromView(pr: Problem, layout: Layout, id: ItemId)
    requires GoodLayout(pr.f, layout) && id in layout
    ensures StepView(pr, layout - {id}) == StepView(pr, layout) - {(pr.Step(id), layout[id].rect)}
    ensures Obstacles(layout, id) == Rects(layout) - {layout[id].rect}
  {
    hide GoodLayout;
    forall i | i in layout && i != id
      ensures layout[i].rect != layout[id].rect
    {
      FootprintsDiffer(pr.f, layout, i, id);
    }
  }

  // ---------- unloading the twin layout ----------

  /** The package of `b` that stands where `id` stands in `a` and leaves at the same stop. */
  lemma TwinOf(pr: Problem, a: Layout, b: Layout, id: ItemId) returns (other: ItemId)
    requires GoodLayout(pr.f, a) && GoodLayout(pr.f, b) && StepView(pr, a) == StepView(pr, b)
    requires CanLeave(pr.f, a, id)
    ensures pr.Step(other) == pr.Step(id) && CanLeave(pr.f, b, other)
    ensures StepView(pr, a - {id}) == StepView(pr, b - {other})
  {
    hide GoodLayout, CanEscape;
    assert (pr.Step(id), a[id].rect) in StepView(pr, b);
    other :| other in b && pr.Step(other) == pr.Step(id) && b[other].rect == a[id].rect;
    RemoveFromView(pr, a, id);
    RemoveFromView(pr, b, other);
    ViewGivesRects(pr, a, b);
  }

  lemma {:induction false} UnloadTwin(pr: Problem, a: Layout, b: Layout, order: seq<ItemId>, step: nat)
      returns (twin: seq<ItemId>)
    requires GoodLayout(pr.f, a) && GoodLayout(pr.f, b) && StepView(pr, a) == StepView(pr, b)
    requires IsUnloadOrder(pr.f, a, order) && forall id | id in order :: pr.Step(id) == step
    ensures IsUnloadOrder(pr.f, b, twin) && forall id | id in twin :: pr.Step(id) == step
    ensures StepView(pr, a - Elements(order)) == StepView(pr, b - Elements(twin))
    decreases |order|
  {
    hide GoodLayout, CanLeave, StepView;
    if order == [] {
      twin := [];
      assert a - Elements(order) == a && b - Elements(twin) == b;
    } else {
      var id, rest := order[0], order[1..];
      var other := TwinOf(pr, a, b, id);
      UnloadedLayoutGood(pr.f, a, {id});
      UnloadedLayoutGood(pr.f, b, {other});
      var later := UnloadTwin(pr, a - {id}, b - {other}, rest, step);
      twin := [other] + later;
      LeaveFirst(pr.f, b, other, later);
      assert Elements(order) == {id} + Elements(rest);
      assert a - {id} - Elements(rest) == a - Elements(order);
      assert b - {other} - Elements(later) == b - Elements(twin);
    }
  }

  lemma NotInView(pr: Problem, layout: Layout, step: nat, rect: Rect)
    requires forall id | id in layout :: pr.Step(id) != step
    ensures (step, rect) !in StepView(pr, layout)
  {
  }

  lemma TwinLeavesSame(pr: Problem, a: Layout, b: Layout, order: seq<ItemId>, twin: seq<ItemId>, step: nat)
    requires a.Keys == b.Keys
    requires Elements(order) <= a.Keys && Elements(twin) <= b.Keys
    requires forall id | id in a :: id in Elements(order) <==> pr.Step(id) == step
    requires forall id | id in twin :: pr.Step(id) == step
    requires StepView(pr, a - Elements(order)) == StepView(pr, b - Elements(twin))
    ensures Elements(twin) == Elements(order)
  {
    forall id | id in b && pr.Step(id) == step
      ensures id in Elements(twin)
    {
      if id !in Elements(twin) {
        assert id in b - Elements(twin);
        NotInView(pr, a - Elements(order), step, b[id].rect);
      }
    }
    assert forall id | id in Elements(twin) :: id in twin;
  }

  // ---------- loading the twin layout ----------

  /** The items placed so far at this stop stand in the same places. */
  ghost predicate SamePlacesSoFar(items: seq<CargoItem>, k: nat, a: Layout, b: Layout) {
    && k <= |items| && a.Keys == b.Keys
    && forall j | 0 <= j < k :: items[j].id in a && a[items[j].id] == b[items[j].id]
  }

  lemma {:induction false} SameSymmetry(pr: Problem, items: seq<CargoItem>, k: nat, n: nat, item: CargoItem,
      a: Layout, b: Layout)
    requires n <= k <= |items| && SamePlacesSoFar(items, k, a, b)
    ensures MinimumSymmetricPosition(pr.steps, items, n, item, a) ==
            MinimumSymmetricPosition(pr.steps, items, n, item, b)
  {
    if n == 0 {
    } else {
      SameSymmetry(pr, items, k, n - 1, item, a, b);
    }
  }

  lemma AddToView(pr: Problem, layout: Layout, id: ItemId, p: Placed)
    requires id !in layout
    ensures StepView(pr, layout[id := p]) == StepView(pr, layout) + {(pr.Step(id), p.rect)}
  {
    var next := layout[id := p];
    forall i | i in layout
      ensures (pr.Step(i), layout[i].rect) in StepView(pr, next)
    {
      assert i in next && next[i] == layout[i];
    }
    assert id in next;
  }

  lemma AcceptsTwin(pr: Problem, prune: bool, items: seq<CargoItem>, k: nat, a: Layout, b: Layout, r: Rect)
    requires k < |items| && SamePlacesSoFar(items, k, a, b)
    requires StepView(pr, a) == StepView(pr, b)
    requires Accepts(pr, prune, items, k, a, r)
    ensures Accepts(pr, prune, items, k, b, r)
  {
    hide IsCandidate, CanEscape, UnloadSafe;
    ViewGivesRects(pr, a, b);
    SameSymmetry(pr, items, k, k, items[k], a, b);
    if prune {
      UnloadSafeFromView(pr, a, b, items[k].id, r);
    }
  }

  lemma {:induction false} LoadsTwin(pr: Problem, prune: bool, i: nat, items: seq<CargoItem>, k: nat, a: Layout,
      b: Layout, final: Layout)
    returns (twin: Layout)
    requires k <= |items| && SamePlacesSoFar(items, k, a, b)
    requires Weights(a) == Weights(b) && StepView(pr, a) == StepView(pr, b)
    requires Loads(pr, prune, i, items, k, a, final)
    ensures Loads(pr, prune, i, items, k, b, twin)
    ensures StepView(pr, final) == StepView(pr, twin)
    ensures forall id | id in b :: id in twin && twin[id] == b[id]
    decreases |items| - k
  {
    hide Accepts, StepView;
    if k == |items| {
      twin := b;
    } else {
      var item := items[k];
      var p := final[item.id];
      var a', b' := a[item.id := p], b[item.id := p];
      AcceptsTwin(pr, prune, items, k, a, b, p.rect);
      AddToView(pr, a, item.id, p);
      AddToView(pr, b, item.id, p);
      assert Weights(a') == Weights(a)[item.id := p.weight] && Weights(b') == Weights(b)[item.id := p.weight];
      assert SamePlacesSoFar(items, k + 1, a', b');
      twin := LoadsTwin(pr, prune, i, items, k + 1, a', b', final);
      assert twin[item.id] == b'[item.id] == p;
    }
  }

  // ---------- the twin run ----------

  lemma WeightsGiveKeys(a: Layout, b: Layout)
    requires Weights(a) == Weights(b)
    ensures a.Keys == b.Keys
  {
    assert Weights(a).Keys == a.Keys && Weights(b).Keys == b.Keys;
  }

  lemma StopTwin(pr: Problem, prune: bool, i: nat, a: Layout, b: Layout, step: Step) returns (twin: Step)
    requires pr.Valid() && i < |pr.stops|
    requires FloorInvariant(pr, i, a) && FloorInvariant(pr, i, b) && StepView(pr, a) == StepView(pr, b)
    requires SearchStop(pr, prune, i, a, step)
    ensures SearchStop(pr, prune, i, b, twin)
    ensures StepView(pr, step.layout) == StepView(pr, twin.layout)
  {
    hide GoodLayout, Loads, StepView, IsUnloadOrder, CargoAboard, Problem.Valid;
    var leaving := Elements(pr.stops[i].unloads);
    WeightsGiveKeys(a, b);
    PermutationElements(step.unloadOrder, pr.stops[i].unloads);
    UnloadOrderDistinct(pr.f, a, step.unloadOrder);
    UnloadedStillDue(pr, i, a);
    assert forall id | id in step.unloadOrder :: id in Elements(step.unloadOrder);
    var order := UnloadTwin(pr, a, b, step.unloadOrder, i);
    UnloadOrderDistinct(pr.f, b, order);
    TwinLeavesSame(pr, a, b, step.unloadOrder, order, i);
    assert forall id :: id in order <==> id in Elements(order);
    DistinctPermutation(order, step.unloadOrder);
    assert Weights(a - leaving) == Weights(a) - leaving && Weights(b - leaving) == Weights(b) - leaving;
    var layout := LoadsTwin(pr, prune, i, LoadOrder(pr, i), 0, a - leaving, b - leaving, step.layout);
    twin := Step(layout, order);
  }

  /** Two floors with the same footprints leaving at the same stops have matching runs. */
  lemma {:induction false} RunTwin(pr: Problem, prune: bool, i: nat, a: Layout, b: Layout, steps: seq<Step>)
      returns (twin: seq<Step>)
    requires pr.Valid() && i <= |pr.stops|
    requires FloorInvariant(pr, i, a) && FloorInvariant(pr, i, b) && StepView(pr, a) == StepView(pr, b)
    requires SearchSteps(pr, prune, i, a, steps)
    ensures SearchSteps(pr, prune, i, b, twin)
    decreases |pr.stops| - i
  {
    hide SearchStop, FloorInvariant, StepView, Problem.Valid;
    if i == |pr.stops| {
      twin := [];
    } else {
      var step := StopTwin(pr, prune, i, a, b, steps[0]);
      SearchStopKeepsInvariant(pr, prune, i, a, steps[0]);
      SearchStopKeepsInvariant(pr, prune, i, b, step);
      var rest := RunTwin(pr, prune, i + 1, steps[0].layout, step.layout, steps[1..]);
      twin := [step] + rest;
      assert twin[1..] == rest;
    }
  }

  /** Interchangeability: what the rest of the plan can do depends on a floor only
      through its key, so a failure holds for every floor with the same key. */
  lemma SameKeySameVerdict(pr: Problem, classes: Classes, prune: bool, i: nat, a: Layout, b: Layout)
    requires pr.Valid() && ClassesFor(pr, classes) && i <= |pr.stops|
    requires FloorInvariant(pr, i, a) && FloorInvariant(pr, i, b)
    requires Key(classes, a) == Key(classes, b)
    ensures Solvable(pr, prune, i, a) <==> Solvable(pr, prune, i, b)
  {
    hide SearchSteps, FloorInvariant, Problem.Valid, Key, ClassesFor, StepView;
    KeyDeterminesView(pr, classes, a, b);
    if Solvable(pr, prune, i, a) {
      var steps: seq<Step> :| SearchSteps(pr, prune, i, a, steps);
      var twin := RunTwin(pr, prune, i, a, b, steps);
    }
    if Solvable(pr, prune, i, b) {
      var steps: seq<Step> :| SearchSteps(pr, prune, i, b, steps);
      var twin := RunTwin(pr, prune, i, b, a, steps);
    }
  }
}
