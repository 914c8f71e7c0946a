/** Keeping the way out open: the whole-layout test, the incremental test made for
    each new package, and why a package that fails it can never be part of a legal
    replay. */
module UnloadSafety {
  import opened Prelude
  import opened Geometry
  import opened EscapeSearch
  import opened Replay

  /** First declared unload of each item, by stop index. */
  type UnloadSteps = map<ItemId, nat>

  ghost predicate FirstUnloadAt(stops: seq<Stop>, id: ItemId, k: nat) {
    && k < |stops| && id in stops[k].unloads
    && forall j | 0 <= j < k :: id !in stops[j].unloads
  }

  ghost predicate UnloadStepsFor(stops: seq<Stop>, steps: UnloadSteps) {
    && (forall id | id in steps :: FirstUnloadAt(stops, id, steps[id]))
    && (forall k, id | 0 <= k < |stops| && id in stops[k].unloads :: id in steps)
  }

  method BuildUnloadSteps(stops: seq<Stop>) returns (steps: UnloadSteps)
    ensures UnloadStepsFor(stops, steps)
  {
    steps := map[];
    for k := 0 to |stops|
      invariant forall id | id in steps :: FirstUnloadAt(stops, id, steps[id])
      invariant forall j, id | 0 <= j < k && id in stops[j].unloads :: id in steps
    {
      var unloads := stops[k].unloads;
      for n := 0 to |unloads|
        invariant forall id | id in steps :: FirstUnloadAt(stops, id, steps[id])
        invariant forall j, id | 0 <= j < k && id in stops[j].unloads :: id in steps
        invariant forall m | 0 <= m < n :: unloads[m] in steps
      {
        if unloads[n] !in steps {
          assert FirstUnloadAt(stops, unloads[n], k);
          steps := steps[unloads[n] := k];
        }
      }
    }
  }

  /** Items that no stop unloads rank after every stop. */
  function StepOf(steps: UnloadSteps, count: nat, id: ItemId): nat {
    if id in steps then steps[id] else count + 1
  }

  /** The footprints that are still aboard after everything due by `step` has left. */
  function LaterRects(layout: Layout, steps: UnloadSteps, count: nat, step: nat): set<Rect> {
    set i | i in layout && StepOf(steps, count, i) > step :: layout[i].rect
  }

  /** Every package aboard has a clear path past what unloads after it. */
  ghost predicate RespectsUnloadOrder(f: Floor, layout: Layout, steps: UnloadSteps, count: nat) {
    forall t | t in layout ::
      CanEscape(f, layout[t].rect, LaterRects(layout, steps, count, StepOf(steps, count, t)))
  }

  /** The incremental condition on a new package. */
  ghost predicate UnloadSafe(f: Floor, id: ItemId, r: Rect, layout: Layout, steps: UnloadSteps, count: nat) {
    var step := StepOf(steps, count, id);
    && CanEscape(f, r, LaterRects(layout, steps, count, step))
    && forall t | t in layout && StepOf(steps, count, t) < step ::
         CanEscape(f, layout[t].rect, LaterRects(layout, steps, count, StepOf(steps, count, t)) + {r})
  }

  lemma UnobstructedEscapes(f: Floor, r: Rect)
    requires r.Solid() && InBounds(f, r)
    ensures CanEscape(f, r, {})
  {
    RouteEscapes(f, r, {}, [Point(r.x, r.y), Point(f.length - r.length, r.y)]);
  }

  lemma LaterRectsClear(f: Floor, layout: Layout, steps: UnloadSteps, count: nat, t: ItemId)
    requires GoodLayout(f, layout) && t in layout
    ensures layout[t].rect.Solid() && InBounds(f, layout[t].rect)
    ensures AllSolid(LaterRects(layout, steps, count, StepOf(steps, count, t)))
    ensures Clear(layout[t].rect, LaterRects(layout, steps, count, StepOf(steps, count, t)))
  {
  }

  lemma NewRectClear(f: Floor, layout: Layout, r: Rect, steps: UnloadSteps, count: nat, step: nat)
    requires GoodLayout(f, layout) && r.Solid() && Clear(r, Rects(layout))
    ensures AllSolid(LaterRects(layout, steps, count, step)) && Clear(r, LaterRects(layout, steps, count, step))
    ensures forall t | t in layout :: !IsOverlap(layout[t].rect, r)
  {
    assert LaterRects(layout, steps, count, step) <= Rects(layout);
    forall t | t in layout
      ensures !IsOverlap(layout[t].rect, r)
    {
      ClearOfAll(layout, r, t);
    }
  }

  /** The incremental test as it is run for a candidate placement. */
  method IsPlacementUnloadSafe(f: Floor, id: ItemId, r: Rect, layout: Layout, steps: UnloadSteps, count: nat)
      returns (safe: bool)
    requires GoodLayout(f, layout) && r.Solid() && InBounds(f, r) && Clear(r, Rects(layout))
    ensures safe <==> UnloadSafe(f, id, r, layout, steps, count)
  {
    hide CanEscape, GoodLayout;
    var step := StepOf(steps, count, id);
    var laterItems := LaterRects(layout, steps, count, step);
    NewRectClear(f, layout, r, steps, count, step);
    if laterItems != {} {
      var clear := IsPathToDoorClear(f, r, laterItems);
      if !clear {
        return false;
      }
    } else {
      UnobstructedEscapes(f, r);
    }
    var pending := layout.Keys;
    while pending != {}
      invariant pending <= layout.Keys
      invariant forall t | t in layout && t !in pending && StepOf(steps, count, t) < step ::
                  CanEscape(f, layout[t].rect, LaterRects(layout, steps, count, StepOf(steps, count, t)) + {r})
    {
      var target :| target in pending;
      var targetStep := StepOf(steps, count, target);
      if targetStep < step {
        LaterRectsClear(f, layout, steps, count, target);
        var blockers := LaterRects(layout, steps, count, targetStep) + {r};
        var clear := IsPathToDoorClear(f, layout[target].rect, blockers);
        if !clear {
          return false;
        }
      }
      pending := pending - {target};
    }
    return true;
  }

  /** The whole-layout test. */
  method LayoutRespectsUnloadOrder(f: Floor, layout: Layout, steps: UnloadSteps, count: nat) returns (ok: bool)
    requires GoodLayout(f, layout)
    ensures ok <==> RespectsUnloadOrder(f, layout, steps, count)
  {
    hide CanEscape, GoodLayout;
    var pending := layout.Keys;
    while pending != {}
      invariant pending <= layout.Keys
      invariant forall t | t in layout && t !in pending ::
                  CanEscape(f, layout[t].rect, LaterRects(layout, steps, count, StepOf(steps, count, t)))
    {
      var target :| target in pending;
      var laterItems := LaterRects(layout, steps, count, StepOf(steps, count, target));
      LaterRectsClear(f, layout, steps, count, target);
      if laterItems != {} {
        var clear := IsPathToDoorClear(f, layout[target].rect, laterItems);
        if !clear {
          return false;
        }
      } else {
        UnobstructedEscapes(f, layout[target].rect);
      }
      pending := pending - {target};
    }
    return true;
  }

  /** The incremental test refines the whole-layout test: checking each package as it
      is added is checking the layout. */
  lemma IncrementalTestIsExact(f: Floor, layout: Layout, id: ItemId, p: Placed, steps: UnloadSteps, count: nat)
    requires id !in layout
    ensures RespectsUnloadOrder(f, layout[id := p], steps, count)
            <==> RespectsUnloadOrder(f, layout, steps, count) && UnloadSafe(f, id, p.rect, layout, steps, count)
  {
    hide CanEscape;
    var next, step := layout[id := p], StepOf(steps, count, id);
    assert LaterRects(next, steps, count, step) == LaterRects(layout, steps, count, step);
    forall t | t in layout
      ensures var s := StepOf(steps, count, t);
              LaterRects(next, steps, count, s) ==
              if s < step then LaterRects(layout, steps, count, s) + {p.rect} else LaterRects(layout, steps, count, s)
    {
      var s := StepOf(steps, count, t);
      if s < step { assert next[id].rect in LaterRects(next, steps, count, s); }
    }
    if RespectsUnloadOrder(f, next, steps, count) {
      forall t | t in layout
        ensures CanEscape(f, layout[t].rect, LaterRects(layout, steps, count, StepOf(steps, count, t)))
        ensures StepOf(steps, count, t) < step ==>
                  CanEscape(f, layout[t].rect, LaterRects(layout, steps, count, StepOf(steps, count, t)) + {p.rect})
      {
        var s := StepOf(steps, count, t);
        assert t in next && next[t] == layout[t];
        EscapeMonotone(f, layout[t].rect, LaterRects(layout, steps, count, s), LaterRects(next, steps, count, s));
      }
      assert id in next;
    }
  }

  // ---------- why a rejected placement cannot be completed ----------

  lemma {:induction false} LeavesPastStayersNow(f: Floor, layout: Layout, order: seq<ItemId>, t: ItemId,
      stay: set<ItemId>)
    requires IsUnloadOrder(f, layout, order) && t in order
    requires stay <= layout.Keys && forall i | i in stay :: i !in order
    ensures t in layout && CanEscape(f, layout[t].rect, RectsOf(layout, stay))
    decreases |order|
  {
    if order[0] == t {
      EscapeMonotone(f, layout[t].rect, RectsOf(layout, stay), Obstacles(layout, t));
    } else {
      var rest := layout - {order[0]};
      LeavesPastStayersNow(f, rest, order[1..], t, stay);
      assert RectsOf(rest, stay) == RectsOf(layout, stay);
    }
  }

  lemma LeavesPastStayersAtStop(f: Floor, stop: Stop, before: Layout, step: Step, t: ItemId, stay: set<ItemId>)
    requires LegalStop(f, stop, before, step) && t in stop.unloads
    requires stay <= before.Keys && forall i | i in stay :: i !in stop.unloads
    ensures t in before && CanEscape(f, before[t].rect, RectsOf(before, stay))
  {
    hide CanEscape, CanLoad, IsUnloadOrder;
    PermutationElements(step.unloadOrder, stop.unloads);
    assert forall i :: i in stop.unloads <==> i in Elements(stop.unloads);
    assert forall i :: i in step.unloadOrder <==> i in Elements(step.unloadOrder);
    LeavesPastStayersNow(f, before, step.unloadOrder, t, stay);
  }

  /** A package that leaves at stop `k` slides out past everything that is aboard now
      and stays aboard through that stop, because none of it moves in between. */
  lemma {:induction false} LeavesPastStayers(f: Floor, stops: seq<Stop>, start: Layout, steps: seq<Step>, t: ItemId,
      k: nat, stay: set<ItemId>)
    requires ValidPlan(stops) && GoodLayout(f, start) && LegalReplay(f, stops, start, steps)
    requires k < |stops| && t in start && t in stops[k].unloads && forall j | 0 <= j < k :: t !in stops[j].unloads
    requires stay <= start.Keys && forall j, i | 0 <= j <= k && i in stay :: i !in stops[j].unloads
    ensures CanEscape(f, start[t].rect, RectsOf(start, stay))
    decreases k
  {
    hide CanEscape, LegalStop, GoodLayout;
    ValidRest(stops);
    if k == 0 {
      LeavesPastStayersAtStop(f, stops[0], start, steps[0], t, stay);
    } else {
      LegalStopKeeps(f, stops[0], start, steps[0]);
      assert forall i | i in Elements(stops[0].unloads) :: i in stops[0].unloads;
      assert forall i | i in stay :: i in start && i !in stops[0].unloads;
      var next := steps[0].layout;
      LeavesPastStayers(f, stops[1..], next, steps[1..], t, k - 1, stay);
      assert RectsOf(next, stay) == RectsOf(start, stay);
    }
  }

  /** Everything aboard is still to be unloaded, or never is. */
  ghost predicate NothingOverdue(layout: Layout, steps: UnloadSteps, index: nat) {
    forall i | i in layout && i in steps :: steps[i] >= index
  }

  /** A layout from which the remaining stops can be executed respects the unload order. */
  lemma ReplayableRespectsUnloadOrder(f: Floor, stops: seq<Stop>, index: nat, layout: Layout, steps: UnloadSteps)
    requires ValidPlan(stops) && UnloadStepsFor(stops, steps) && index <= |stops|
    requires GoodLayout(f, layout) && NothingOverdue(layout, steps, index)
    requires CanReplayFrom(f, stops[index..], layout)
    ensures RespectsUnloadOrder(f, layout, steps, |stops|)
  {
    hide CanEscape, LegalReplay;
    var replay: seq<Step> :| LegalReplay(f, stops[index..], layout, replay);
    forall t | t in layout
      ensures CanEscape(f, layout[t].rect, LaterRects(layout, steps, |stops|, StepOf(steps, |stops|, t)))
    {
      var later := LaterRects(layout, steps, |stops|, StepOf(steps, |stops|, t));
      if t in steps {
        assert FirstUnloadAt(stops, t, steps[t]);
        var stay := set i | i in layout && StepOf(steps, |stops|, i) > steps[t];
        assert RectsOf(layout, stay) == later;
        forall j, i | 0 <= j <= steps[t] - index && i in stay
          ensures i !in stops[index..][j].unloads
        {
          assert stops[index..][j] == stops[index + j];
          assert i in steps ==> FirstUnloadAt(stops, i, steps[i]);
        }
        LeavesPastStayers(f, stops[index..], layout, replay, t, steps[t] - index, stay);
      } else {
        assert later == {};
        LaterRectsClear(f, layout, steps, |stops|, t);
        UnobstructedEscapes(f, layout[t].rect);
      }
    }
  }

  lemma RespectIsMonotone(f: Floor, layout: Layout, more: Layout, steps: UnloadSteps, count: nat)
    requires forall i | i in layout :: i in more && more[i] == layout[i]
    requires RespectsUnloadOrder(f, more, steps, count)
    ensures RespectsUnloadOrder(f, layout, steps, count)
  {
    hide CanEscape;
    forall t | t in layout
      ensures CanEscape(f, layout[t].rect, LaterRects(layout, steps, count, StepOf(steps, count, t)))
    {
      var s := StepOf(steps, count, t);
      EscapeMonotone(f, layout[t].rect, LaterRects(layout, steps, count, s), LaterRects(more, steps, count, s));
    }
  }

  /** Pruning is lossless: once a placement fails the incremental test, no layout that
      keeps it lets the remaining stops be executed, wherever later packages go. */
  lemma RejectedPlacementIsDoomed(f: Floor, stops: seq<Stop>, index: nat, layout: Layout, id: ItemId, p: Placed,
      steps: UnloadSteps, after: Layout)
    requires ValidPlan(stops) && UnloadStepsFor(stops, steps) && index <= |stops|
    requires id !in layout && !UnloadSafe(f, id, p.rect, layout, steps, |stops|)
    requires GoodLayout(f, after) && NothingOverdue(after, steps, index)
    requires forall i | i in layout[id := p] :: i in after && after[i] == layout[id := p][i]
    ensures !CanReplayFrom(f, stops[index..], after)
  {
    if CanReplayFrom(f, stops[index..], after) {
      ReplayableRespectsUnloadOrder(f, stops, index, after, steps);
      RespectIsMonotone(f, layout[id := p], after, steps, |stops|);
      IncrementalTestIsExact(f, layout, id, p, steps, |stops|);
    }
  }
}
