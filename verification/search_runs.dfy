/** What a run of either search is, step by step, and that the plan it keeps is the
    cheapest it has built. */
module SearchRuns {
  import opened Prelude
  import RouteSchedule
  import opened OrderConservation
  import opened DestroyRepair

  datatype Plan = Plan(routes: seq<Route>, unassigned: seq<nat>)

  function Cost(e: Engine, p: Plan): int {
    (e.planCost)(p.routes, |p.unassigned|)
  }

  /** Every order is on one route or unassigned, on allowed vehicles. */
  ghost predicate IsState(e: Engine, p: Plan)
    requires e.Valid()
  {
    Conserves(e.N(), p.routes, Elements(p.unassigned)) && e.Respects(p.routes) && Distinct(p.unassigned)
  }

  // ---------- ruin and recreate ----------

  /** The first plan: everything inserted greedily into empty routes. */
  ghost predicate IsFirstPlan(e: Engine, turns: seq<Turn>, first: Plan)
    requires e.Valid()
  {
    && IsState(e, first)
    && IsGreedyRun(e, seq(|e.request.vehicles|, v => []), turns, first.routes) && first.unassigned == FailedOf(turns)
    && Distinct(OrdersTried(turns)) && forall o: nat :: o in OrdersTried(turns) <==> o < e.N()
  }

  /** Orders taken out, and the greedy run that inserts them and the unassigned ones again. */
  datatype Rebuild = Rebuild(removed: seq<nat>, remaining: seq<Route>, turns: seq<Turn>)

  ghost predicate IsRebuild(e: Engine, before: Plan, r: Rebuild, after: Plan)
    requires e.Valid()
  {
    && IsState(e, before) && IsState(e, after)
    && Distinct(r.removed) && Elements(r.removed) !! Elements(before.unassigned)
    && TakesOut(before.routes, r.removed, r.remaining)
    && IsGreedyRun(e, r.remaining, r.turns, after.routes) && after.unassigned == FailedOf(r.turns)
    && Distinct(OrdersTried(r.turns))
    && Elements(OrdersTried(r.turns)) == Elements(before.unassigned) + Elements(r.removed)
  }

  // ---------- simulated annealing ----------

  /** One iteration: a rebuild of the current plan, accepted or not. */
  datatype Visit = Visit(before: Plan, rebuild: Rebuild, after: Plan, accepted: bool) {
    function Next(): Plan {
      if accepted then after else before
    }
  }

  const START_TEMPERATURE := 400000.0
  const COOLING_RATE := 0.95
  const MINIMUM_TEMPERATURE := 0.0001

  function Temperature(iteration: nat): real {
    if iteration == 0 then START_TEMPERATURE else Temperature(iteration - 1) * COOLING_RATE
  }

  ghost function Decay(k: nat): real {
    if k == 0 then 1.0 else Decay(k - 1) * 0.95
  }

  lemma {:induction false} DecayAdds(j: nat, k: nat)
    ensures Decay(j + k) == Decay(j) * Decay(k)
  {
    if k == 0 {
    } else {
      DecayAdds(j, k - 1);
    }
  }

  lemma {:induction false} DecayShrinks(j: nat, k: nat)
    requires j <= k
    ensures 0.0 < Decay(k) <= Decay(j)
  {
    if k == 0 {
    } else if j < k {
      DecayShrinks(j, k - 1);
    } else {
      DecayShrinks(j - 1, k - 1);
    }
  }

  lemma DecayDoubles(k: nat, low: real, high: real)
    requires 0.0 < low <= Decay(k) <= high
    ensures low * low <= Decay(2 * k) <= high * high
  {
    DecayAdds(k, k);
    LargerProduct(low, Decay(k), low, Decay(k));
    LargerProduct(Decay(k), high, Decay(k), high);
  }

  lemma DecayTriples(k: nat, low: real, high: real, low2: real, high2: real)
    requires 0.0 < low <= Decay(k) <= high && 0.0 < low2 <= Decay(2 * k) <= high2
    ensures low2 * low <= Decay(3 * k) <= high2 * high
  {
    DecayAdds(2 * k, k);
    LargerProduct(low2, Decay(2 * k), low, Decay(k));
    LargerProduct(Decay(2 * k), high2, Decay(k), high);
  }

  lemma LargerProduct(a: real, b: real, c: real, d: real)
    requires 0.0 < a <= b && 0.0 < c <= d
    ensures a * c <= b * d
  {
    assert a * c <= b * c <= b * d;
  }

  lemma DecayAfter3()
    ensures Decay(3) == 0.857375
  {
    assert Decay(1) == 0.95 && Decay(2) == 0.9025;
  }

  lemma DecayAfter432()
    ensures 0.000000000238 <= Decay(432) <= 0.00000000023802
  {
    hide Decay;
    assert Decay(3) == 0.857375 by { DecayAfter3(); }
    DecayDoubles(3, 0.857375, 0.857375);
    DecayTriples(3, 0.857375, 0.857375, 0.735091890625, 0.735091890625);
    DecayDoubles(9, 0.6302494097, 0.6302494098);
    DecayTriples(9, 0.6302494097, 0.6302494098, 0.3972143184, 0.3972143186);
    DecayDoubles(27, 0.25034408, 0.25034409);
    DecayDoubles(54, 0.06267215, 0.06267217);
    DecayDoubles(108, 0.0039277983, 0.0039278009);
    DecayDoubles(216, 0.00001542759, 0.00001542762);
  }

  lemma {:induction false} TemperatureDecays(iteration: nat)
    ensures Temperature(iteration) == 400000.0 * Decay(iteration)
  {
    if iteration == 0 {
    } else {
      TemperatureDecays(iteration - 1);
    }
  }

  /** Annealing is over after 432 iterations: exactly from then on it is too cold to accept
      anything but an improvement. */
  lemma ColdFromIteration432(e: Engine, iteration: nat, v: Visit)
    requires e.Valid() && IsVisit(e, iteration, v)
    ensures Temperature(iteration) <= MINIMUM_TEMPERATURE <==> iteration >= 432
    ensures iteration >= 432 ==> (v.accepted <==> Cost(e, v.after) < Cost(e, v.before))
  {
    hide IsRebuild, IsSmallRuin, Temperature;
    DecayAfter432();
    TemperatureDecays(iteration);
    if iteration >= 432 {
      DecayShrinks(432, iteration);
    } else {
      DecayShrinks(iteration, 431);
      assert Decay(432) == Decay(431) * 0.95;
    }
  }

  /** At most three orders, at most a third of all and at least one, or two when only one
      route is active, or all orders of a smallest active route. */
  ghost predicate IsSmallRuin(e: Engine, before: Plan, removed: seq<nat>)
    requires e.Valid()
  {
    || ((|removed| <= 1 || (|removed| <= 3 && 3 * |removed| <= e.N()))
        && (removed == [] ==> |before.unassigned| == e.N()))
    || |removed| == Min(2, e.N() - |before.unassigned|)
    || exists victim: nat :: IsSmallest(before.routes, victim) && Elements(removed) == OrdersOf(before.routes[victim])
  }

  function MostRemoved(e: Engine): nat {
    Max(1, Min(3, e.N() / 3))
  }

  /** An improvement is always accepted, anything else only while it is warm enough, and
      then a plan that costs the same is. */
  ghost predicate IsJudged(e: Engine, iteration: nat, v: Visit) {
    && (Cost(e, v.after) < Cost(e, v.before) ==> v.accepted)
    && (Cost(e, v.after) == Cost(e, v.before) && Temperature(iteration) > MINIMUM_TEMPERATURE ==> v.accepted)
    && (v.accepted ==> Cost(e, v.after) < Cost(e, v.before) || Temperature(iteration) > MINIMUM_TEMPERATURE)
  }

  ghost predicate IsVisit(e: Engine, iteration: nat, v: Visit)
    requires e.Valid()
  {
    && IsRebuild(e, v.before, v.rebuild, v.after) && IsSmallRuin(e, v.before, v.rebuild.removed)
    && IsJudged(e, iteration, v)
  }

  /** The visits lead from the first plan to the current one. */
  ghost predicate IsAnnealing(e: Engine, first: Plan, visits: seq<Visit>, current: Plan)
    requires e.Valid()
  {
    if visits == [] then current == first
    else
      var last := |visits| - 1;
      && IsVisit(e, last, visits[last]) && current == visits[last].Next()
      && IsAnnealing(e, first, visits[..last], visits[last].before)
  }

  /** The earliest of the cheapest plans built. */
  function BestVisited(e: Engine, first: Plan, visits: seq<Visit>): Plan {
    if visits == [] then first
    else
      var last := |visits| - 1;
      var best := BestVisited(e, first, visits[..last]);
      if Cost(e, visits[last].after) < Cost(e, best) then visits[last].after else best
  }

  lemma {:induction false} BestVisitedIsCheapest(e: Engine, first: Plan, visits: seq<Visit>)
    ensures var best := BestVisited(e, first, visits);
            && (best == first || exists v :: v in visits && best == v.after)
            && e.planCost(best.routes, |best.unassigned|) <= e.planCost(first.routes, |first.unassigned|)
            && forall v | v in visits ::
                 e.planCost(best.routes, |best.unassigned|) <= e.planCost(v.after.routes, |v.after.unassigned|)
  {
    if visits == [] {
    } else {
      var last := |visits| - 1;
      assert visits == visits[..last] + [visits[last]];
      BestVisitedIsCheapest(e, first, visits[..last]);
      assert visits[last] in visits;
      assert forall v :: v in visits <==> v in visits[..last] || v == visits[last];
    }
  }

  /** The plan kept never costs more than the current one, so an improvement on it is also
      an improvement on the current plan, and accepted. */
  lemma {:induction false} BestIsNoDearerThanCurrent(e: Engine, first: Plan, visits: seq<Visit>, current: Plan)
    requires e.Valid() && IsAnnealing(e, first, visits, current)
    ensures Cost(e, BestVisited(e, first, visits)) <= Cost(e, current)
  {
    if visits == [] {
    } else {
      hide IsVisit;
      var last := |visits| - 1;
      BestIsNoDearerThanCurrent(e, first, visits[..last], visits[last].before);
    }
  }

  lemma OneVisitMore(e: Engine, first: Plan, visits: seq<Visit>, current: Plan, v: Visit)
    requires e.Valid() && IsAnnealing(e, first, visits, current)
    requires v.before == current && IsVisit(e, |visits|, v)
    ensures IsAnnealing(e, first, visits + [v], v.Next())
    ensures var best := BestVisited(e, first, visits);
            BestVisited(e, first, visits + [v]) == if Cost(e, v.after) < Cost(e, best) then v.after else best
  {
    hide IsVisit;
    assert (visits + [v])[..|visits|] == visits;
  }

  // ---------- iterated local search ----------

  /** One order taken out of the plan and inserted again where that is cheapest. */
  datatype Relocation = Relocation(order: nat, reduced: seq<Route>, turns: seq<Turn>, after: Plan)

  ghost predicate IsRelocation(e: Engine, current: Plan, r: Relocation)
    requires e.Valid()
  {
    && IsState(e, r.after)
    && r.order < e.N() && r.order !in current.unassigned
    && TakesOut(current.routes, [r.order], r.reduced)
    && IsGreedyRun(e, r.reduced, r.turns, r.after.routes) && OrdersTried(r.turns) == [r.order]
    && r.after.unassigned == Deduplicate(current.unassigned + FailedOf(r.turns))
  }

  const MOST_RELOCATIONS := 12

  /** Different orders, as many as there are up to the limit unless time runs out. */
  ghost predicate AreTrials(e: Engine, current: Plan, tried: seq<Relocation>, timeIsUp: bool)
    requires e.Valid()
  {
    && (forall r | r in tried :: IsRelocation(e, current, r))
    && (forall j, k | 0 <= j < k < |tried| :: tried[j].order != tried[k].order)
    && |tried| <= 12
    && (timeIsUp || |tried| == Min(12, e.N() - |current.unassigned|))
  }

  lemma TrialsStandLater(e: Engine, current: Plan, tried: seq<Relocation>, before: bool, after: bool)
    requires e.Valid() && AreTrials(e, current, tried, before) && (before ==> after)
    ensures AreTrials(e, current, tried, after)
  {
  }

  /** The earliest of the cheapest relocations that improve on the plan. */
  function NeighbourOf(e: Engine, current: Plan, tried: seq<Relocation>): Option<Plan> {
    if tried == [] then None
    else
      var best := NeighbourOf(e, current, tried[..|tried| - 1]);
      var candidate := tried[|tried| - 1].after;
      if Cost(e, candidate) < Cost(e, current) && (best.None? || Cost(e, candidate) < Cost(e, best.value))
      then Some(candidate) else best
  }

  lemma {:induction false} NeighbourIsCheapest(e: Engine, current: Plan, tried: seq<Relocation>)
    ensures var best := NeighbourOf(e, current, tried);
            && (best.Some? ==> Cost(e, best.value) < Cost(e, current))
            && (best.Some? ==> exists r :: r in tried && r.after == best.value)
            && forall r | r in tried && Cost(e, r.after) < Cost(e, current) ::
                 best.Some? && Cost(e, best.value) <= Cost(e, r.after)
  {
    if tried == [] {
    } else {
      var last := |tried| - 1;
      NeighbourIsCheapest(e, current, tried[..last]);
      assert tried == tried[..last] + [tried[last]];
      assert tried[last] in tried;
    }
  }

  /** One iteration: relocations of the current plan, and if none improves it, a rebuild of
      the best plan so far, or the end. */
  datatype Round = Round(current: Plan, best: Plan, failures: nat, tried: seq<Relocation>, kick: Option<Rebuild>,
                         after: Plan, timeIsUp: bool)

  /** 15% of the orders and 5% more for each perturbation without success up to 40%, at least two. */
  function RemoveCount(placed: nat, failures: nat): nat {
    Min(placed, Max(2, RouteSchedule.Round(RemovalShare(placed, failures))))
  }

  function RemovalShare(placed: nat, failures: nat): real {
    placed as real * RemovalRatio(failures)
  }

  function RemovalRatio(failures: nat): real {
    var ratio := 0.15 + 0.05 * failures as real;
    if ratio < 0.4 then ratio else 0.4
  }

  function Percent(failures: nat): nat {
    if failures < 5 then 15 + 5 * failures else 40
  }

  /** The share removed after so many perturbations without success, rounded to the nearest
      whole number, but at least two orders. */
  lemma RemoveCountIsShare(placed: nat, failures: nat)
    ensures var count := RemoveCount(placed, failures);
            && count <= placed && (placed >= 2 ==> count >= 2)
            && (count < placed ==> 100 * count >= Percent(failures) * placed - 50)
            && (count > 2 ==> 100 * count <= Percent(failures) * placed + 50)
  {
    hide RouteSchedule.Round, RemovalShare, Percent;
    ShareIsPercent(placed, failures);
    RoundedShare(placed, RemovalShare(placed, failures), Percent(failures) * placed);
  }

  lemma RoundedShare(placed: nat, share: real, percentage: nat)
    requires 100.0 * share == percentage as real
    ensures var count := Min(placed, Max(2, RouteSchedule.Round(share)));
            && (placed >= 2 ==> count >= 2) && (count < placed ==> 100 * count >= percentage - 50)
            && (count > 2 ==> 100 * count <= percentage + 50)
  {
    hide RouteSchedule.Round;
  }

  lemma ShareIsPercent(placed: nat, failures: nat)
    ensures 100.0 * RemovalShare(placed, failures) == (Percent(failures) * placed) as real
  {
    assert 100.0 * RemovalRatio(failures) == Percent(failures) as real;
    assert 100.0 * RemovalShare(placed, failures) == placed as real * (100.0 * RemovalRatio(failures));
  }

  /** Never less is removed than after fewer failures. */
  lemma RemoveCountGrows(placed: nat, failures: nat)
    ensures RemoveCount(placed, failures) <= RemoveCount(placed, failures + 1)
  {
    hide RouteSchedule.Round, RemovalShare;
    ShareGrows(placed, failures);
    CountGrows(placed, RemovalShare(placed, failures), RemovalShare(placed, failures + 1));
  }

  lemma ShareGrows(placed: nat, failures: nat)
    ensures RemovalShare(placed, failures) <= RemovalShare(placed, failures + 1)
  {
    var now, next := RemovalRatio(failures), RemovalRatio(failures + 1);
    assert now <= next;
    hide RemovalRatio;
    SharesGrow(placed, now, next);
  }

  lemma SharesGrow(placed: nat, a: real, b: real)
    requires a <= b
    ensures placed as real * a <= placed as real * b
  {
    if placed > 0 && a < b {
      assert 0.0 < placed as real * (b - a);
    }
  }

  lemma CountGrows(placed: nat, x: real, y: real)
    requires x <= y
    ensures Min(placed, Max(2, RouteSchedule.Round(x))) <= Min(placed, Max(2, RouteSchedule.Round(y)))
  {
    assert RouteSchedule.Round(x) <= RouteSchedule.Round(y);
  }

  ghost predicate Stops(e: Engine, r: Round) {
    NeighbourOf(e, r.current, r.tried).None? && r.kick.None?
  }

  ghost predicate IsRound(e: Engine, r: Round)
    requires e.Valid()
  {
    && IsState(e, r.current) && IsState(e, r.best) && AreTrials(e, r.current, r.tried, r.timeIsUp)
    && var neighbour := NeighbourOf(e, r.current, r.tried);
    var placed := e.N() - |r.best.unassigned|;
    if neighbour.Some? then r.kick.None? && r.after == neighbour.value
    else if r.kick.Some? then
      && IsRebuild(e, r.best, r.kick.value, r.after)
      && placed > 0 && |r.kick.value.removed| == RemoveCount(placed, r.failures + 1)
    else r.after == r.current && (r.timeIsUp || placed == 0)
  }

  function NextBest(e: Engine, r: Round): Plan {
    if Cost(e, r.after) < Cost(e, r.best) then r.after else r.best
  }

  function NextFailures(e: Engine, r: Round): nat {
    if Cost(e, r.after) < Cost(e, r.best) then 0
    else if r.kick.Some? then r.failures + 1
    else r.failures
  }

  /** The rounds lead from the first plan to the current and the best one. */
  ghost predicate IsLocalSearch(e: Engine, first: Plan, rounds: seq<Round>, current: Plan, best: Plan, failures: nat)
    requires e.Valid()
  {
    if rounds == [] then current == first && best == first && failures == 0
    else
      var last := |rounds| - 1;
      var r := rounds[last];
      && IsRound(e, r)
      && current == r.after && best == NextBest(e, r) && failures == NextFailures(e, r)
      && (last > 0 ==> !Stops(e, rounds[last - 1]))
      && IsLocalSearch(e, first, rounds[..last], r.current, r.best, r.failures)
  }

  /** The plan is the first one or was built in some round, and none built was cheaper. */
  ghost predicate IsCheapestBuilt(e: Engine, first: Plan, rounds: seq<Round>, best: Plan) {
    && (best == first || exists r :: r in rounds && best == r.after)
    && Cost(e, best) <= Cost(e, first)
    && forall r | r in rounds :: NothingCheaper(e, r, Cost(e, best))
  }

  ghost predicate NothingCheaper(e: Engine, r: Round, cost: int) {
    cost <= Cost(e, r.after) && forall t | t in r.tried :: cost <= Cost(e, t.after)
  }

  lemma {:induction false} LocalSearchKeepsCheapest(e: Engine, first: Plan, rounds: seq<Round>, current: Plan,
                                                    best: Plan, failures: nat)
    requires e.Valid() && IsLocalSearch(e, first, rounds, current, best, failures)
    ensures IsCheapestBuilt(e, first, rounds, best) && Cost(e, best) <= Cost(e, current)
  {
    if rounds == [] {
    } else {
      var last := |rounds| - 1;
      var r := rounds[last];
      LocalSearchKeepsCheapest(e, first, rounds[..last], r.current, r.best, r.failures);
      assert rounds == rounds[..last] + [r];
      assert r in rounds;
      RoundKeepsCheapest(e, r);
      forall s | s in rounds
        ensures NothingCheaper(e, s, Cost(e, best))
      {
        if s in rounds[..last] {
          assert NothingCheaper(e, s, Cost(e, r.best));
        }
      }
      if best != r.after && r.best != first {
        var s :| s in rounds[..last] && r.best == s.after;
        assert s in rounds;
      }
    }
  }

  lemma RoundKeepsCheapest(e: Engine, r: Round)
    requires e.Valid() && IsRound(e, r) && Cost(e, r.best) <= Cost(e, r.current)
    ensures NothingCheaper(e, r, Cost(e, NextBest(e, r)))
    ensures Cost(e, NextBest(e, r)) <= Cost(e, r.best) && Cost(e, NextBest(e, r)) <= Cost(e, r.after)
  {
    hide IsRebuild, AreTrials, IsState;
    NeighbourIsCheapest(e, r.current, r.tried);
  }

  lemma OneRoundMore(e: Engine, first: Plan, rounds: seq<Round>, current: Plan, best: Plan, failures: nat, r: Round)
    requires e.Valid() && IsLocalSearch(e, first, rounds, current, best, failures)
    requires r.current == current && r.best == best && r.failures == failures && IsRound(e, r)
    requires rounds != [] ==> !Stops(e, rounds[|rounds| - 1])
    ensures IsLocalSearch(e, first, rounds + [r], r.after, NextBest(e, r), NextFailures(e, r))
  {
    hide IsRound, Stops;
    assert (rounds + [r])[..|rounds|] == rounds;
  }
}
