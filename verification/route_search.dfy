/** Simulated annealing and iterated local search over destroy and repair, and the final
    response built from the best plan found. */
module RouteSearch {
  import opened Prelude
  import opened DriverMatching
  import opened RouteStops
  import opened RouteSchedule
  import opened OrderConservation
  import opened RouteLoads
  import opened DestroyRepair
  import opened SearchRuns

  // ---------- the final response ----------

  datatype Response = Response(routes: seq<EmittedRoute>, unassigned: seq<nat>)

  ghost function Emitted(routes: seq<EmittedRoute>): (emitted: seq<Route>)
    ensures |emitted| == |routes|
  {
    seq(|routes|, k requires 0 <= k < |routes| => Visited(routes[k].stops))
  }

  /** The vehicle is allowed to all orders of the route or to none. */
  ghost predicate Unmixed(e: Engine, routes: seq<Route>, v: nat)
    requires e.Valid() && v < |routes| == |e.request.vehicles|
  {
    || (forall o | o in OrdersOf(routes[v]) && o < e.N() :: e.Allows(o, v))
    || (forall o | o in OrdersOf(routes[v]) && o < e.N() :: !e.Allows(o, v))
  }

  /** Some order is neither on a route nor left out. */
  ghost predicate Lost(n: nat, routes: seq<Route>, out: set<nat>) {
    exists o: nat :: o < n && o !in out && Absent(routes, o)
  }

  lemma LostIsNotConserved(n: nat, routes: seq<Route>, out: set<nat>)
    requires Lost(n, routes, out)
    ensures !Conserves(n, routes, out)
  {
    var o: nat :| o < n && o !in out && Absent(routes, o);
    assert !Accounted(n, routes, out, o);
  }

  /** Dropping a route conserves orders just when all its orders are reported. */
  lemma DropStep(n: nat, before: seq<Route>, stops: Route, after: seq<Route>, out: set<nat>, reported: set<nat>)
    requires Conserves(n, before + [stops] + after, out) && reported <= OrdersOf(stops)
    ensures reported == OrdersOf(stops) ==> Conserves(n, before + after, out + reported)
    ensures reported != OrdersOf(stops) ==> Lost(n, before + after, out + reported)
  {
    hide OnlyOrder, OrdersOf;
    var routes, v := before + [stops] + after, |before|;
    assert routes[v] == stops;
    if reported == OrdersOf(stops) {
      ClearConserves(n, routes, out, v);
      assert routes[v := []] == before + [[]] + after;
      DropEmptyConserves(n, before, after, out + reported);
    } else {
      RouteHoldsOrders(n, routes, out, v);
      var o :| o in OrdersOf(stops) && o !in reported;
      assert PlacedOn(routes, o, v);
      forall w | 0 <= w < |before + after|
        ensures OnlyOrder((before + after)[w], o) == []
      {
        assert (before + after)[w] == routes[if w < v then w else w + 1];
      }
    }
  }

  lemma LostStaysLost(n: nat, before: seq<Route>, stops: Route, after: seq<Route>, out: set<nat>, reported: set<nat>)
    requires Lost(n, before + [stops] + after, out) && reported <= OrdersOf(stops)
    ensures Lost(n, before + after, out + reported)
  {
    var routes, v := before + [stops] + after, |before|;
    var o: nat :| o < n && o !in out && Absent(routes, o);
    assert OnlyOrder(routes[v], o) == [] && routes[v] == stops;
    MentionedIffOnRoute(stops, o);
    assert o !in out + reported;
    forall w | 0 <= w < |before + after|
      ensures OnlyOrder((before + after)[w], o) == []
    {
      assert (before + after)[w] == routes[if w < v then w else w + 1];
    }
    assert Absent(before + after, o);
  }

  /** After the first routes: orders are conserved unless one of those routes was mixed. */
  ghost predicate Reported(e: Engine, routes: seq<Route>, v: nat, emitted: seq<Route>, out: set<nat>)
    requires e.Valid() && v <= |routes| == |e.request.vehicles|
  {
    if forall w | 0 <= w < v :: Unmixed(e, routes, w)
    then Conserves(e.N(), emitted + routes[v..], out)
    else Lost(e.N(), emitted + routes[v..], out)
  }

  lemma ReportedDrop(e: Engine, routes: seq<Route>, v: nat, emitted: seq<Route>, out: set<nat>, reported: set<nat>)
    requires e.Valid() && v < |routes| == |e.request.vehicles|
    requires Reported(e, routes, v, emitted, out)
    requires reported <= OrdersOf(routes[v])
    requires reported == OrdersOf(routes[v]) <==> Unmixed(e, routes, v)
    ensures Reported(e, routes, v + 1, emitted, out + reported)
  {
    hide Conserves, Lost, OrdersOf, Unmixed;
    assert routes[v..] == [routes[v]] + routes[v + 1..];
    assert emitted + routes[v..] == emitted + [routes[v]] + routes[v + 1..];
    if forall w | 0 <= w < v :: Unmixed(e, routes, w) {
      DropStep(e.N(), emitted, routes[v], routes[v + 1..], out, reported);
    } else {
      LostStaysLost(e.N(), emitted, routes[v], routes[v + 1..], out, reported);
    }
  }

  lemma ReportedEmit(e: Engine, routes: seq<Route>, v: nat, emitted: seq<Route>, out: set<nat>)
    requires e.Valid() && v < |routes| == |e.request.vehicles|
    requires Reported(e, routes, v, emitted, out) && Unmixed(e, routes, v)
    ensures Reported(e, routes, v + 1, emitted + [routes[v]], out)
  {
    hide Conserves, Lost, Unmixed;
    assert emitted + routes[v..] == emitted + [routes[v]] + routes[v + 1..];
  }

  function PickupOrders(stops: Route): (orders: seq<nat>)
    ensures forall o :: o in orders <==> Pickup(o) in stops
  {
    if stops == [] then []
    else
      assert stops == [stops[0]] + stops[1..];
      (if stops[0].Pickup? then [stops[0].order] else []) + PickupOrders(stops[1..])
  }

  /** The orders of the list that the vehicle may not carry. */
  function Disallowed(e: Engine, v: nat, orders: seq<nat>): (disallowed: seq<nat>)
    requires e.Valid() && v < |e.request.vehicles|
    ensures forall o :: o in disallowed <==> o in orders && o < e.N() && !e.Allows(o, v)
  {
    if orders == [] then []
    else
      (if orders[0] < e.N() && !e.Allows(orders[0], v) then [orders[0]] else []) + Disallowed(e, v, orders[1..])
  }

  /** A reported route visits the planned stops, meets their windows, keeps the shift and
      passes the time checks. */
  ghost predicate EmittedWell(e: Engine, routes: seq<Route>, emitted: EmittedRoute)
    requires e.Valid() && |routes| == |e.request.vehicles|
  {
    && emitted.slot < |routes| && Visited(emitted.stops) == routes[emitted.slot] != []
    && e.request.vehicles[emitted.slot].start <= emitted.start && emitted.end <= e.request.vehicles[emitted.slot].end
    && MeetsWindows(e.request, emitted.stops) && TimesAddUp(emitted)
  }

  /** One route: emitted, or dropped with orders added to the unassigned ones. */
  method ReportRoute(e: Engine, routes: seq<Route>, ghost out: set<nat>, v: nat, ghost emitted: seq<Route>,
      final: seq<nat>)
    returns (route: Option<EmittedRoute>, reported: seq<nat>)
    requires e.Valid() && v < |routes| == |e.request.vehicles|
    requires Conserves(e.N(), routes, out) && Reported(e, routes, v, emitted, Elements(final))
    ensures route.Some? ==> EmittedWell(e, routes, route.value) && route.value.slot == v
    ensures Reported(e, routes, v + 1, emitted + if route.Some? then [routes[v]] else [], Elements(reported))
  {
    hide Conserves, Unmixed, Reported, WellFormed, Visited, OrdersOf, TimesAddUp, ScheduleOf, MeetsWindows;
    var stops := routes[v];
    var pickups := PickupOrders(stops);
    PickupsAreOrders(e, routes, out, v, pickups);
    var disallowed := Disallowed(e, v, pickups);
    assert emitted + [] == emitted;
    if stops == [] {
      NoOrders(e, routes, v);
      ReportedDrop(e, routes, v, emitted, Elements(final), {});
      assert Elements(final) + {} == Elements(final);
      return None, final;
    }
    if disallowed != [] {
      MixedIffPartlyDisallowed(e, routes, v, disallowed);
      ReportMore(final, disallowed);
      ReportedDrop(e, routes, v, emitted, Elements(final), Elements(disallowed));
      return None, final + disallowed;
    }
    AllowedIsUnmixed(e, routes, v, disallowed);
    route := EmitRoute(e.request, v, stops);
    var spatialOk: bool := *;
    if route.None? || !spatialOk {
      ReportMore(final, pickups);
      ReportedDrop(e, routes, v, emitted, Elements(final), Elements(pickups));
      return None, final + pickups;
    }
    ReportedEmit(e, routes, v, emitted, Elements(final));
    return route, final;
  }

  /** Every order is reported exactly once, on a route or as unassigned, if and only if no
      route mixes orders its vehicle may carry with orders it may not: such a route is
      dropped whole while only the latter are reported. */
  method BuildFinalResponse(e: Engine, routes: seq<Route>, unassigned: seq<nat>) returns (response: Response)
    requires e.Valid() && |routes| == |e.request.vehicles|
    requires Conserves(e.N(), routes, Elements(unassigned))
    ensures Distinct(response.unassigned)
    ensures forall k | 0 <= k < |response.routes| :: EmittedWell(e, routes, response.routes[k])
    ensures forall j, k | 0 <= j < k < |response.routes| :: response.routes[j].slot < response.routes[k].slot
    ensures Conserves(e.N(), Emitted(response.routes), Elements(response.unassigned)) <==>
            forall v | 0 <= v < |routes| :: Unmixed(e, routes, v)
  {
    hide Conserves, Unmixed, Reported, WellFormed, TimesAddUp, ScheduleOf, MeetsWindows;
    var optimized: seq<EmittedRoute> := [];
    var final := Deduplicate(unassigned);
    ghost var out := Elements(unassigned);
    assert Elements(final) == out;
    assert Emitted([]) + routes[0..] == routes;
    assert Reported(e, routes, 0, Emitted([]), out) by { NothingReported(e, routes, out); }
    for v := 0 to |routes|
      invariant Reported(e, routes, v, Emitted(optimized), Elements(final))
      invariant forall k | 0 <= k < |optimized| :: EmittedWell(e, routes, optimized[k]) && optimized[k].slot < v
      invariant forall j, k | 0 <= j < k < |optimized| :: optimized[j].slot < optimized[k].slot
    {
      var route, reported := ReportRoute(e, routes, out, v, Emitted(optimized), final);
      if route.Some? {
        assert Emitted(optimized + [route.value]) == Emitted(optimized) + [routes[v]];
        optimized := optimized + [route.value];
      } else {
        assert Emitted(optimized) + [] == Emitted(optimized);
      }
      final := reported;
    }
    response := Response(optimized, Deduplicate(final));
    assert Elements(response.unassigned) == Elements(final);
    AllReported(e, routes, Emitted(optimized), Elements(final));
  }

  /** A plan that is mixed: the only vehicle carries two orders, of which it may carry the
      first. Its route is dropped for the second, and the first is reported nowhere. */
  lemma MixedRouteLosesOrder() returns (e: Engine, routes: seq<Route>)
    ensures e.Valid() && |routes| == |e.request.vehicles| == 1
    ensures Conserves(e.N(), routes, {}) && !Unmixed(e, routes, 0)
    ensures Disallowed(e, 0, PickupOrders(routes[0])) == [1]
    ensures 0 < e.N() && Absent([], 0) && Lost(e.N(), [], {1})
  {
    e := OneVehicleForTheFirst();
    var stops := [Pickup(0), Delivery(0), Pickup(1), Delivery(1)];
    routes := [stops];
    TwoOrdersInTurn(stops);
    hide Engine.Allows, Engine.Valid, Conserves, WellFormed;
    assert stops[0] in stops && stops[2] in stops;
    assert 0 in OrdersOf(stops) && 1 in OrdersOf(stops);
    PickupsInTurn(stops);
    OnlyTheSecond(e);
  }

  lemma OnlyTheSecond(e: Engine)
    requires e.Valid() && |e.request.vehicles| == 1 && e.N() == 2 && e.Allows(0, 0) && !e.Allows(1, 0)
    ensures Disallowed(e, 0, [0, 1]) == [1]
  {
    hide Engine.Allows, WellFormed;
    assert [0, 1][1..] == [1] && [1][1..] == [];
    assert Disallowed(e, 0, [1]) == [1];
  }

  /** Two orders, one vehicle, and the second order is for another vehicle. */
  lemma OneVehicleForTheFirst() returns (e: Engine)
    ensures e.Valid() && |e.request.vehicles| == 1 && e.N() == 2
    ensures e.Allows(0, 0) && !e.Allows(1, 0)
  {
    var vehicle := Vehicle(7, 1000, false, 0);
    var order := Order(0, 100, 0, 100, 0);
    var matrix := seq(5, i => seq(5, j => 0.0));
    var request := Request([Slot(vehicle, 0, 100)], [Driver(0, C, 0, 0, 0, 0)], [order, order], matrix, matrix);
    assert WellFormed(request);
    var allowed: seq<set<nat>> := [{}, {8}];
    e := Engine(request, [1, 1], allowed, [7], [0], (v, stops) => true, (v, before, after) => 0.0, (plan, out) => 0);
    assert e.allowedSources[0] == {} && e.allowedSources[1] == {8} && e.sources[0] == 7;
  }

  lemma PickupsInTurn(stops: Route)
    requires stops == [Pickup(0), Delivery(0), Pickup(1), Delivery(1)]
    ensures PickupOrders(stops) == [0, 1]
  {
    var last3, last2, last1 := [Delivery(0), Pickup(1), Delivery(1)], [Pickup(1), Delivery(1)], [Delivery(1)];
    assert stops[1..] == last3 && last3[1..] == last2 && last2[1..] == last1 && last1[1..] == [];
    assert PickupOrders(last1) == [];
    assert PickupOrders(last2) == [1];
    assert PickupOrders(last3) == [1];
  }

  lemma TwoOrdersInTurn(stops: Route)
    requires stops == [Pickup(0), Delivery(0), Pickup(1), Delivery(1)]
    ensures Conserves(2, [stops], {})
  {
    forall o: nat
      ensures Accounted(2, [stops], {}, o)
    {
      assert stops == [stops[0]] + [stops[1]] + [stops[2]] + [stops[3]];
      OnlyOrderJoin([stops[0]] + [stops[1]] + [stops[2]], [stops[3]], o);
      OnlyOrderJoin([stops[0]] + [stops[1]], [stops[2]], o);
      OnlyOrderJoin([stops[0]], [stops[1]], o);
      OneStop(stops[0], o);
      OneStop(stops[1], o);
      OneStop(stops[2], o);
      OneStop(stops[3], o);
      if o < 2 {
        assert PlacedOn([stops], o, 0);
      }
    }
  }

  lemma NothingReported(e: Engine, routes: seq<Route>, out: set<nat>)
    requires e.Valid() && |routes| == |e.request.vehicles| && Conserves(e.N(), routes, out)
    ensures Reported(e, routes, 0, Emitted([]), out)
  {
    assert Emitted([]) + routes[0..] == routes;
  }

  lemma AllReported(e: Engine, routes: seq<Route>, emitted: seq<Route>, out: set<nat>)
    requires e.Valid() && |routes| == |e.request.vehicles| && Reported(e, routes, |routes|, emitted, out)
    ensures Conserves(e.N(), emitted, out) <==> forall v | 0 <= v < |routes| :: Unmixed(e, routes, v)
  {
    assert emitted + routes[|routes|..] == emitted;
    if Lost(e.N(), emitted, out) {
      LostIsNotConserved(e.N(), emitted, out);
    }
  }

  lemma ReportMore(final: seq<nat>, more: seq<nat>)
    ensures Elements(final + more) == Elements(final) + Elements(more)
    ensures Elements<nat>([]) == {}
  {
  }

  lemma PickupsAreOrders(e: Engine, routes: seq<Route>, out: set<nat>, v: nat, pickups: seq<nat>)
    requires e.Valid() && v < |routes| == |e.request.vehicles| && Conserves(e.N(), routes, out)
    requires forall o :: o in pickups <==> Pickup(o) in routes[v]
    ensures Elements(pickups) == OrdersOf(routes[v])
    ensures forall o | o in OrdersOf(routes[v]) :: o < e.N()
  {
    RouteHoldsOrders(e.N(), routes, out, v);
    forall o | o in pickups
      ensures o in OrdersOf(routes[v])
    {
      assert Pickup(o).order == o;
    }
  }

  lemma NoOrders(e: Engine, routes: seq<Route>, v: nat)
    requires e.Valid() && v < |routes| == |e.request.vehicles| && routes[v] == []
    ensures OrdersOf(routes[v]) == {} && Unmixed(e, routes, v)
  {
  }

  lemma MixedIffPartlyDisallowed(e: Engine, routes: seq<Route>, v: nat, disallowed: seq<nat>)
    requires e.Valid() && v < |routes| == |e.request.vehicles| && disallowed != []
    requires forall o | o in OrdersOf(routes[v]) :: o < e.N()
    requires forall o :: o in disallowed <==> o in OrdersOf(routes[v]) && o < e.N() && !e.Allows(o, v)
    ensures Elements(disallowed) <= OrdersOf(routes[v])
    ensures Elements(disallowed) == OrdersOf(routes[v]) <==> Unmixed(e, routes, v)
  {
    assert disallowed[0] in disallowed;
  }

  lemma AllowedIsUnmixed(e: Engine, routes: seq<Route>, v: nat, disallowed: seq<nat>)
    requires e.Valid() && v < |routes| == |e.request.vehicles| && disallowed == []
    requires forall o | o in OrdersOf(routes[v]) && o < e.N() :: o in disallowed || e.Allows(o, v)
    ensures Unmixed(e, routes, v)
  {
  }

  // ---------- the searches ----------

  /** Plans of the search mix nothing, so all their orders are reported exactly once. */
  lemma StatesAreUnmixed(e: Engine, p: Plan)
    requires e.Valid() && IsState(e, p)
    ensures forall v | 0 <= v < |p.routes| :: Unmixed(e, p.routes, v)
  {
  }

  lemma StateMeans(e: Engine, p: Plan)
    requires e.Valid() && IsState(e, p)
    ensures Distinct(p.unassigned) && |p.routes| == |e.request.vehicles|
    ensures Conserves(e.N(), p.routes, Elements(p.unassigned)) && e.Respects(p.routes)
    ensures |Elements(p.unassigned)| == |p.unassigned|
  {
    DistinctSize(p.unassigned);
  }

  method AllOrders(n: nat) returns (all: seq<nat>)
    ensures Distinct(all) && forall o: nat :: o in all <==> o < n
  {
    all := [];
    for o := 0 to n
      invariant Distinct(all) && forall x: nat :: x in all <==> x < o
    {
      AppendNew(all, o);
      all := all + [o];
    }
  }

  lemma EmptyRoutesRespect(e: Engine, routes: seq<Route>)
    requires e.Valid() && |routes| == |e.request.vehicles|
    requires forall v | 0 <= v < |routes| :: routes[v] == []
    ensures e.Respects(routes)
  {
    hide Engine.MayDrive, WellFormed;
    forall v | 0 <= v < |routes|
      ensures e.MayDrive(v, routes[v])
    {
      EmptyMayDrive(e, v);
    }
  }

  /** The first plan; annealing builds it without looking at the clock. */
  method InitialPlan(e: Engine, timed: bool)
      returns (routes: array<Route>, unassigned: seq<nat>, timedOut: bool, ghost turns: seq<Turn>)
    requires e.Valid()
    ensures fresh(routes) && IsFirstPlan(e, turns, Plan(routes[..], unassigned))
    ensures !timed ==> !timedOut
    ensures !timedOut ==> OnTime(turns)
  {
    hide Conserves, WellFormed, IsGreedyRun;
    routes := new Route[|e.request.vehicles|](v => []);
    assert routes[..] == seq(|e.request.vehicles|, v => []);
    EmptyRoutesRespect(e, routes[..]);
    var all := AllOrders(e.N());
    NothingPlaced(e.N(), routes[..], Elements(all));
    assert {} + Elements(all) == Elements(all);
    unassigned, timedOut, turns := RepairGreedyInsert(e, routes, all, timed, false, {});
    assert {} + Elements(unassigned) == Elements(unassigned);
    assert forall o: nat :: o in OrdersTried(turns) <==> o in Elements(OrdersTried(turns));
  }

  /** Inserts the removed and the unassigned orders again, all in one pool. */
  method RepairDestroyed(e: Engine, ghost before: Plan, routes: array<Route>, unassigned: seq<nat>, removed: seq<nat>,
      late: bool)
      returns (failed: seq<nat>, timedOut: bool, ghost rebuild: Rebuild)
    requires e.Valid() && IsState(e, before) && unassigned == before.unassigned
    requires Destroyed(e, before.routes, Elements(unassigned), routes[..], removed)
    modifies routes
    ensures IsRebuild(e, before, rebuild, Plan(routes[..], failed)) && rebuild.removed == removed
    ensures late ==> timedOut
    ensures !timedOut ==> OnTime(rebuild.turns)
  {
    hide Conserves, WellFormed, IsGreedyRun, TakesOut;
    ghost var remaining := routes[..];
    StateMeans(e, before);
    var pool := Deduplicate(unassigned + removed);
    ReportMore(unassigned, removed);
    assert Elements(pool) == Elements(unassigned + removed);
    assert {} + Elements(pool) == Elements(unassigned) + Elements(removed);
    ghost var turns;
    failed, timedOut, turns := RepairGreedyInsert(e, routes, pool, true, late, {});
    assert {} + Elements(failed) == Elements(failed);
    rebuild := Rebuild(removed, remaining, turns);
  }

  method SomeRoute(routes: array<Route>) returns (some: bool)
    ensures some <==> exists v :: 0 <= v < routes.Length && routes[v] != []
  {
    some := false;
    for v := 0 to routes.Length
      invariant some <==> exists w :: 0 <= w < v && routes[w] != []
    {
      if routes[v] != [] {
        some := true;
      }
    }
  }

  /** Some number of orders in the range the annealing draws from. */
  method DrawCount(e: Engine) returns (count: nat)
    ensures 1 <= count <= MostRemoved(e)
  {
    count := *;
    count := 1 + count % MostRemoved(e);
  }

  lemma SmallestRouteGoes(e: Engine, before: Plan, removed: seq<nat>, victim: nat)
    requires e.Valid() && IsSmallest(before.routes, victim) && Elements(removed) == OrdersOf(before.routes[victim])
    ensures IsSmallRuin(e, before, removed)
  {
  }

  /** Destroys a copy or builds new routes, so the current plan is kept for a rejection. */
  method DestroyCurrent(e: Engine, current: array<Route>, unassigned: seq<nat>)
      returns (remaining: array<Route>, removed: seq<nat>)
    requires e.Valid() && IsState(e, Plan(current[..], unassigned))
    ensures fresh(remaining)
    ensures Destroyed(e, current[..], Elements(unassigned), remaining[..], removed)
    ensures IsSmallRuin(e, Plan(current[..], unassigned), removed)
  {
    hide Conserves, WellFormed, IsState, TakesOut, IsSmallest;
    StateMeans(e, Plan(current[..], unassigned));
    var chooseSmall: bool := *;
    var some := SomeRoute(current);
    if chooseSmall && some {
      ghost var victim;
      remaining, removed, victim := DestroySmallRoute(e, current, Elements(unassigned));
      if victim.Some? {
        SmallestIsRoute(current[..], victim.value);
        SmallestRouteGoes(e, Plan(current[..], unassigned), removed, victim.value);
      }
    } else {
      var numRemove := DrawCount(e);
      var copy := CopyRoutes(current);
      remaining, removed := DestroyRandom(e, copy, Elements(unassigned), numRemove);
      assert |removed| == Min(numRemove, e.N() - |unassigned|);
    }
  }

  /** Simulated annealing. The run leads by visits from the greedy first plan; all are made
      unless time runs out, and of all plans built the earliest of the cheapest is returned. */
  method Anneal(e: Engine, maxIterations: nat)
      returns (best: Plan, iterations: nat, timedOut: bool, ghost turns: seq<Turn>, ghost first: Plan,
        ghost visits: seq<Visit>, ghost last: Plan)
    requires e.Valid()
    ensures IsState(e, best)
    ensures IsFirstPlan(e, turns, first) && OnTime(turns) && IsAnnealing(e, first, visits, last)
    ensures best == BestVisited(e, first, visits)
    ensures iterations == |visits| <= maxIterations && (iterations == maxIterations || timedOut)
    ensures !timedOut ==> forall v | v in visits :: OnTime(v.rebuild.turns)
  {
    hide IsState, WellFormed, IsFirstPlan, IsAnnealing, BestVisited, IsVisit, OnTime, Temperature;
    var current, currentUnassigned;
    current, currentUnassigned, timedOut, turns := InitialPlan(e, false);
    first := Plan(current[..], currentUnassigned);
    assert IsState(e, first) by { FirstIsState(e, turns, first); }
    var bestRoutes := CopyRoutes(current);
    var bestUnassigned := currentUnassigned;
    var currentCost := Cost(e, Plan(current[..], currentUnassigned));
    var bestCost := currentCost;
    var temperature := START_TEMPERATURE;
    iterations, visits := 0, [];
    NoVisits(e, first);
    while iterations < maxIterations
      invariant fresh(current) && fresh(bestRoutes)
      invariant iterations == |visits| <= maxIterations && temperature == Temperature(iterations)
      invariant IsState(e, Plan(current[..], currentUnassigned)) && IsState(e, Plan(bestRoutes[..], bestUnassigned))
      invariant IsAnnealing(e, first, visits, Plan(current[..], currentUnassigned))
      invariant BestVisited(e, first, visits) == Plan(bestRoutes[..], bestUnassigned)
      invariant currentCost == Cost(e, Plan(current[..], currentUnassigned))
      invariant bestCost == Cost(e, Plan(bestRoutes[..], bestUnassigned))
      invariant !timedOut ==> forall v | v in visits :: OnTime(v.rebuild.turns)
    {
      if !timedOut {
        timedOut := *;
      }
      if timedOut {
        break;
      }
      ghost var before := Plan(current[..], currentUnassigned);
      BestIsNoDearerThanCurrent(e, first, visits, before);
      var repaired, removed := DestroyCurrent(e, current, currentUnassigned);
      var unassigned;
      ghost var rebuild;
      unassigned, timedOut, rebuild := RepairDestroyed(e, before, repaired, currentUnassigned, removed, timedOut);
      ghost var after := Plan(repaired[..], unassigned);
      assert IsState(e, after) by { RebuiltIsState(e, before, rebuild, after); }
      var cost := Cost(e, Plan(repaired[..], unassigned));
      var luck: bool := *;
      var accepted := cost < currentCost || (temperature > MINIMUM_TEMPERATURE && (cost == currentCost || luck));
      ghost var visit := Visit(before, rebuild, after, accepted);
      assert IsVisit(e, iterations, visit) by { MakeVisit(e, iterations, visit); }
      OneVisitMore(e, first, visits, before, visit);
      visits := visits + [visit];
      if accepted {
        current, currentUnassigned, currentCost := repaired, unassigned, cost;
        if cost < bestCost {
          bestCost := cost;
          bestRoutes := CopyRoutes(repaired);
          bestUnassigned := unassigned;
        }
      }
      assert Temperature(iterations + 1) == temperature * COOLING_RATE by { Cooler(iterations); }
      temperature := temperature * COOLING_RATE;
      iterations := iterations + 1;
    }
    best, last := Plan(bestRoutes[..], bestUnassigned), Plan(current[..], currentUnassigned);
  }

  lemma Cooler(iteration: nat)
    ensures Temperature(iteration + 1) == Temperature(iteration) * COOLING_RATE
    ensures Temperature(0) == START_TEMPERATURE
  {
  }

  lemma NoVisits(e: Engine, first: Plan)
    requires e.Valid()
    ensures IsAnnealing(e, first, [], first) && BestVisited(e, first, []) == first
    ensures Temperature(0) == START_TEMPERATURE
  {
  }

  lemma FirstIsState(e: Engine, turns: seq<Turn>, first: Plan)
    requires e.Valid() && IsFirstPlan(e, turns, first)
    ensures IsState(e, first)
  {
  }

  lemma RebuiltIsState(e: Engine, before: Plan, r: Rebuild, after: Plan)
    requires e.Valid() && IsRebuild(e, before, r, after)
    ensures IsState(e, after)
  {
  }

  lemma MakeVisit(e: Engine, iteration: nat, v: Visit)
    requires e.Valid() && IsRebuild(e, v.before, v.rebuild, v.after) && IsSmallRuin(e, v.before, v.rebuild.removed)
    requires IsJudged(e, iteration, v)
    ensures IsVisit(e, iteration, v)
  {
  }

  datatype Neighbour = Neighbour(cost: int, routes: array<Route>, unassigned: seq<nat>)

  /** Relocates orders of the plan one at a time and keeps the cheapest improvement. */
  method BestRelocation(e: Engine, routes: array<Route>, unassigned: seq<nat>, late: bool)
      returns (best: Option<Neighbour>, timedOut: bool, ghost tried: seq<Relocation>)
    requires e.Valid() && IsState(e, Plan(routes[..], unassigned))
    ensures AreTrials(e, Plan(routes[..], unassigned), tried, timedOut)
    ensures var found := NeighbourOf(e, Plan(routes[..], unassigned), tried);
            if best.None? then found.None?
            else
              && fresh(best.value.routes)
              && found == Some(Plan(best.value.routes[..], best.value.unassigned))
              && best.value.cost == Cost(e, found.value) && IsState(e, found.value)
    ensures late ==> timedOut
    ensures !timedOut ==> forall r | r in tried :: OnTime(r.turns)
  {
    hide IsState, WellFormed, IsRelocation, OnTime, Conserves, NeighbourOf;
    ghost var current := Plan(routes[..], unassigned);
    var currentCost := Cost(e, Plan(routes[..], unassigned));
    StateMeans(e, current);
    best, timedOut, tried := None, late, [];
    var placed := AssignedOrders(routes);
    PickupsHappenOnce(e.N(), routes[..], Elements(unassigned));
    PlacedCount(e.N(), routes[..], Elements(unassigned), placed);
    var orders := Deduplicate(placed);
    SameSize(placed, orders);
    var chosen := Sample(orders, MOST_RELOCATIONS);
    NoNeighbour(e, current);
    for k := 0 to |chosen|
      invariant best.None? ==> NeighbourOf(e, current, tried).None?
      invariant best.Some? ==>
                  && fresh(best.value.routes)
                  && NeighbourOf(e, current, tried) == Some(Plan(best.value.routes[..], best.value.unassigned))
                  && best.value.cost == Cost(e, Plan(best.value.routes[..], best.value.unassigned))
                  && IsState(e, Plan(best.value.routes[..], best.value.unassigned))
      invariant |tried| == k && forall j | 0 <= j < k :: tried[j].order == chosen[j]
      invariant forall r | r in tried :: IsRelocation(e, current, r)
      invariant late ==> timedOut
      invariant !timedOut ==> forall r | r in tried :: OnTime(r.turns)
    {
      if !timedOut {
        timedOut := *;
      }
      if timedOut {
        break;
      }
      assert chosen[k] in chosen && chosen[k] in placed && chosen[k] !in Elements(unassigned);
      var candidate, failed;
      ghost var relocation;
      candidate, failed, timedOut, relocation := Relocate(e, routes, unassigned, chosen[k], timedOut);
      var cost := Cost(e, Plan(candidate[..], failed));
      OneTrialMore(e, current, tried, relocation);
      tried := tried + [relocation];
      if cost >= currentCost {
        continue;
      }
      if best.None? || cost < best.value.cost {
        best := Some(Neighbour(cost, candidate, failed));
      }
    }
  }

  lemma NoNeighbour(e: Engine, current: Plan)
    ensures NeighbourOf(e, current, []).None?
  {
  }

  lemma OneTrialMore(e: Engine, current: Plan, tried: seq<Relocation>, r: Relocation)
    ensures NeighbourOf(e, current, tried + [r]) ==
            var best := NeighbourOf(e, current, tried);
            if Cost(e, r.after) < Cost(e, current) && (best.None? || Cost(e, r.after) < Cost(e, best.value))
            then Some(r.after) else best
  {
    assert (tried + [r])[..|tried|] == tried;
  }

  method Relocate(e: Engine, routes: array<Route>, unassigned: seq<nat>, o: nat, late: bool)
      returns (candidate: array<Route>, left: seq<nat>, timedOut: bool, ghost relocation: Relocation)
    requires e.Valid() && IsState(e, Plan(routes[..], unassigned))
    requires o < e.N() && o !in unassigned
    ensures fresh(candidate) && IsState(e, Plan(candidate[..], left))
    ensures IsRelocation(e, Plan(routes[..], unassigned), relocation)
    ensures relocation.order == o && relocation.after == Plan(candidate[..], left)
    ensures late ==> timedOut
    ensures !timedOut ==> OnTime(relocation.turns)
  {
    hide Conserves, WellFormed, IsGreedyRun, Engine.Respects, OnlyFeasibleChanges;
    StateMeans(e, Plan(routes[..], unassigned));
    candidate := RemoveOrders(routes, {o});
    assert Elements([o]) == {o};
    assert TakesOut(routes[..], [o], candidate[..]);
    RemoveConserves(e.N(), routes[..], Elements(unassigned), {o}, candidate[..]);
    RemovedRespects(e, routes[..], {o}, candidate[..]);
    ghost var reduced := candidate[..];
    var failed;
    ghost var turns;
    failed, timedOut, turns := RepairGreedyInsert(e, candidate, [o], true, late, Elements(unassigned));
    left := Deduplicate(unassigned + failed);
    ReportMore(unassigned, failed);
    assert Elements(left) == Elements(unassigned + failed);
    OnlyOne(OrdersTried(turns), o);
    relocation := Relocation(o, reduced, turns, Plan(candidate[..], left));
  }

  lemma OnlyOne(s: seq<nat>, o: nat)
    requires Distinct(s) && Elements(s) == {o}
    ensures s == [o]
  {
    DistinctSize(s);
    assert s[0] in Elements(s);
  }

  /** Takes orders out of the best plan and repairs it. */
  method Perturb(e: Engine, best: array<Route>, bestUnassigned: seq<nat>, removeCount: nat, late: bool)
      returns (perturbed: array<Route>, unassigned: seq<nat>, timedOut: bool, ghost kick: Rebuild)
    requires e.Valid() && IsState(e, Plan(best[..], bestUnassigned))
    requires removeCount <= e.N() - |bestUnassigned|
    ensures fresh(perturbed)
    ensures IsRebuild(e, Plan(best[..], bestUnassigned), kick, Plan(perturbed[..], unassigned))
    ensures |kick.removed| == removeCount
    ensures late ==> timedOut
    ensures !timedOut ==> OnTime(kick.turns)
  {
    hide Conserves, WellFormed, IsState, IsRebuild;
    StateMeans(e, Plan(best[..], bestUnassigned));
    var copy := CopyRoutes(best);
    var removed;
    perturbed, removed := DestroyRandom(e, copy, Elements(bestUnassigned), removeCount);
    unassigned, timedOut, kick :=
      RepairDestroyed(e, Plan(best[..], bestUnassigned), perturbed, bestUnassigned, removed, late);
  }

  /** One round: relocate, and if that does not help take orders out of the best plan. */
  method SearchRound(e: Engine, current: array<Route>, currentUnassigned: seq<nat>, bestRoutes: array<Route>,
      bestUnassigned: seq<nat>, perturbation: nat, late: bool)
      returns (next: array<Route>, unassigned: seq<nat>, stopped: bool, kicked: bool, timedOut: bool,
        ghost round: Round)
    requires e.Valid()
    requires IsState(e, Plan(current[..], currentUnassigned)) && IsState(e, Plan(bestRoutes[..], bestUnassigned))
    ensures fresh(next) || next == current
    ensures round.current == Plan(current[..], currentUnassigned) && round.best == Plan(bestRoutes[..], bestUnassigned)
    ensures round.failures == perturbation && round.after == Plan(next[..], unassigned)
    ensures IsRound(e, round) && IsState(e, round.after)
    ensures (stopped <==> Stops(e, round)) && (kicked <==> round.kick.Some?)
    ensures stopped ==> !kicked && round.after == round.current
    ensures late ==> timedOut
    ensures !timedOut ==> RoundOnTime(round)
  {
    hide IsState, WellFormed, IsRound, Stops, OnTime, AreTrials, IsRebuild, NeighbourOf, RemoveCount;
    ghost var now, kept := Plan(current[..], currentUnassigned), Plan(bestRoutes[..], bestUnassigned);
    ghost var tried;
    var neighbour;
    neighbour, timedOut, tried := BestRelocation(e, current, currentUnassigned, late);
    ghost var lateBefore := timedOut;
    if neighbour.Some? {
      next, unassigned, stopped, kicked := neighbour.value.routes, neighbour.value.unassigned, false, false;
      round := Round(now, kept, perturbation, tried, None, Plan(next[..], unassigned), timedOut);
      ImprovedRound(e, round);
      return;
    }
    var placed := AssignedOrders(bestRoutes);
    var assignedCount := CountPlaced(e, kept, placed);
    if !timedOut {
      timedOut := *;
    }
    if assignedCount == 0 || timedOut {
      next, unassigned, stopped, kicked := current, currentUnassigned, true, false;
      TrialsStandLater(e, now, tried, lateBefore, timedOut);
      round := Round(now, kept, perturbation, tried, None, now, timedOut);
      StoppedRound(e, round);
      return;
    }
    var removeCount := RemoveCount(assignedCount, perturbation + 1);
    RemovesAtMostAll(assignedCount, perturbation + 1);
    ghost var kick;
    next, unassigned, timedOut, kick := Perturb(e, bestRoutes, bestUnassigned, removeCount, timedOut);
    stopped, kicked := false, true;
    TrialsStandLater(e, now, tried, lateBefore, timedOut);
    round := Round(now, kept, perturbation, tried, Some(kick), Plan(next[..], unassigned), timedOut);
    KickedRound(e, round);
  }

  /** Iterated local search. Its rounds lead from the greedy first plan; they end when all
      iterations are made, time is up or nothing is placed, and the plan returned is the
      cheapest of all that were built. */
  method IteratedLocalSearch(e: Engine, maxIterations: nat)
      returns (best: Plan, iterations: nat, timedOut: bool, ghost turns: seq<Turn>, ghost first: Plan,
        ghost rounds: seq<Round>, ghost last: Plan, ghost failures: nat)
    requires e.Valid()
    ensures IsState(e, best)
    ensures IsFirstPlan(e, turns, first) && IsLocalSearch(e, first, rounds, last, best, failures)
    ensures IsCheapestBuilt(e, first, rounds, best)
    ensures iterations == |rounds| <= maxIterations
    ensures iterations == maxIterations || timedOut || (rounds != [] && Stops(e, rounds[|rounds| - 1]))
    ensures !timedOut ==> OnTime(turns) && forall r | r in rounds :: RoundOnTime(r)
  {
    hide IsState, WellFormed, IsFirstPlan, IsLocalSearch, IsRound, Stops, RoundOnTime, OnTime, IsCheapestBuilt;
    var current, currentUnassigned;
    current, currentUnassigned, timedOut, turns := InitialPlan(e, true);
    first := Plan(current[..], currentUnassigned);
    assert IsState(e, first) by { FirstIsState(e, turns, first); }
    var currentCost := Cost(e, Plan(current[..], currentUnassigned));
    var bestRoutes := CopyRoutes(current);
    var bestUnassigned := currentUnassigned;
    var bestCost := currentCost;
    var perturbation: nat := 0;
    iterations, rounds := 0, [];
    NoRounds(e, first);
    while iterations < maxIterations
      invariant fresh(current) && fresh(bestRoutes)
      invariant iterations == |rounds| <= maxIterations
      invariant IsState(e, Plan(current[..], currentUnassigned)) && IsState(e, Plan(bestRoutes[..], bestUnassigned))
      invariant IsLocalSearch(e, first, rounds, Plan(current[..], currentUnassigned),
                              Plan(bestRoutes[..], bestUnassigned), perturbation)
      invariant rounds != [] ==> !Stops(e, rounds[|rounds| - 1])
      invariant currentCost == Cost(e, Plan(current[..], currentUnassigned))
      invariant bestCost == Cost(e, Plan(bestRoutes[..], bestUnassigned))
      invariant !timedOut ==> OnTime(turns) && forall r | r in rounds :: RoundOnTime(r)
    {
      if !timedOut {
        timedOut := *;
      }
      if timedOut {
        break;
      }
      iterations := iterations + 1;
      ghost var now, kept := Plan(current[..], currentUnassigned), Plan(bestRoutes[..], bestUnassigned);
      var stopped, kicked;
      ghost var round;
      current, currentUnassigned, stopped, kicked, timedOut, round :=
        SearchRound(e, current, currentUnassigned, bestRoutes, bestUnassigned, perturbation, timedOut);
      LocalSearchKeepsCheapest(e, first, rounds, now, kept, perturbation);
      OneRoundMore(e, first, rounds, now, kept, perturbation, round);
      rounds := rounds + [round];
      if stopped {
        break;
      }
      currentCost := Cost(e, Plan(current[..], currentUnassigned));
      if kicked {
        perturbation := perturbation + 1;
      }
      if currentCost < bestCost {
        bestCost, bestUnassigned, perturbation := currentCost, currentUnassigned, 0;
        bestRoutes := CopyRoutes(current);
      }
    }
    best, last, failures := Plan(bestRoutes[..], bestUnassigned), Plan(current[..], currentUnassigned), perturbation;
    LocalSearchKeepsCheapest(e, first, rounds, last, best, failures);
  }

  /** Time was not up anywhere in the round. */
  ghost predicate RoundOnTime(r: Round) {
    && !r.timeIsUp && (forall t | t in r.tried :: OnTime(t.turns))
    && (r.kick.Some? ==> OnTime(r.kick.value.turns))
  }

  method CountPlaced(e: Engine, ghost p: Plan, placed: seq<nat>) returns (count: nat)
    requires e.Valid() && IsState(e, p)
    requires forall o :: o in placed <==> exists v :: 0 <= v < |p.routes| && Pickup(o) in p.routes[v]
    ensures count == e.N() - |p.unassigned|
  {
    hide Conserves;
    var distinct := Deduplicate(placed);
    StateMeans(e, p);
    PlacedCount(e.N(), p.routes, Elements(p.unassigned), distinct);
    count := |distinct|;
  }

  lemma NoRounds(e: Engine, first: Plan)
    requires e.Valid()
    ensures IsLocalSearch(e, first, [], first, first, 0)
  {
  }

  lemma RemovesAtMostAll(placed: nat, failures: nat)
    ensures RemoveCount(placed, failures) <= placed
  {
  }

  lemma ImprovedRound(e: Engine, r: Round)
    requires e.Valid() && IsState(e, r.current) && IsState(e, r.best) && AreTrials(e, r.current, r.tried, r.timeIsUp)
    requires NeighbourOf(e, r.current, r.tried) == Some(r.after) && r.kick.None?
    ensures IsRound(e, r) && !Stops(e, r)
  {
  }

  lemma KickedRound(e: Engine, r: Round)
    requires e.Valid() && IsState(e, r.current) && AreTrials(e, r.current, r.tried, r.timeIsUp)
    requires NeighbourOf(e, r.current, r.tried).None? && r.kick.Some?
    requires IsState(e, r.best) && IsRebuild(e, r.best, r.kick.value, r.after)
    requires var placed := e.N() - |r.best.unassigned|;
             placed > 0 && |r.kick.value.removed| == RemoveCount(placed, r.failures + 1)
    ensures IsRound(e, r) && !Stops(e, r) && IsState(e, r.after)
  {
  }

  lemma StoppedRound(e: Engine, r: Round)
    requires e.Valid() && IsState(e, r.current) && IsState(e, r.best) && AreTrials(e, r.current, r.tried, r.timeIsUp)
    requires NeighbourOf(e, r.current, r.tried).None? && r.kick.None? && r.after == r.current
    requires r.timeIsUp || e.N() == |r.best.unassigned|
    ensures IsRound(e, r) && Stops(e, r)
  {
  }

  /** A route as a user may rely on it: within the shift, with a driver who may drive it,
      every stop of an order that the vehicle may carry and within its window, never more
      weight aboard than the payload and ten grams, and times that add up. */
  ghost predicate IsReliable(e: Engine, route: EmittedRoute)
    requires e.Valid()
  {
    && route.slot < |e.request.vehicles| && route.stops != []
    && var slot := e.request.vehicles[route.slot];
    && slot.start <= route.start && route.end <= slot.end
    && (exists d :: 0 <= d < |e.request.drivers| && IsLegalPair(slot.vehicle, e.request.drivers[d]))
    && (forall j | 0 <= j < |route.stops| :: IsOpenTo(e, route.stops[j].stop.order, route.slot))
    && (forall k | 0 <= k <= |route.stops| ::
          WeightOf(e.weights, Aboard(Visited(route.stops)[..k])) <= 1000 * slot.vehicle.payloadKg + 10)
    && MeetsWindows(e.request, route.stops) && TimesAddUp(route)
  }

  /** The order names no vehicles, or this one as a physical vehicle or by its own number. */
  ghost predicate IsOpenTo(e: Engine, o: nat, v: nat)
    requires e.Valid() && v < |e.request.vehicles|
  {
    && o < e.N()
    && (e.allowedSources[o] == {} || e.sources[v] in e.allowedSources[o]
        || e.request.vehicles[v].vehicle.id in e.allowedSources[o])
  }

  lemma EmittedIsReliable(e: Engine, routes: seq<Route>, route: EmittedRoute)
    requires e.Valid() && e.Respects(routes) && EmittedWell(e, routes, route)
    ensures IsReliable(e, route)
  {
    hide WellFormed, TimesAddUp, MeetsWindows;
    assert e.MayDrive(route.slot, routes[route.slot]);
    forall j | 0 <= j < |route.stops|
      ensures IsOpenTo(e, route.stops[j].stop.order, route.slot)
    {
      assert route.stops[j].stop == routes[route.slot][j];
      assert route.stops[j].stop in routes[route.slot];
    }
  }

  method BestOfAnnealing(e: Engine, maxIterations: nat) returns (best: Plan)
    requires e.Valid()
    ensures IsState(e, best)
  {
    var iterations, timedOut;
    ghost var turns, first, visits, last;
    best, iterations, timedOut, turns, first, visits, last := Anneal(e, maxIterations);
  }

  method BestOfLocalSearch(e: Engine, maxIterations: nat) returns (best: Plan)
    requires e.Valid()
    ensures IsState(e, best)
  {
    var iterations, timedOut;
    ghost var turns, first, rounds, last, failures;
    best, iterations, timedOut, turns, first, rounds, last, failures := IteratedLocalSearch(e, maxIterations);
  }

  /** Either search ends in a response that reports every order exactly once: on one route
      of a vehicle it allows, as one pickup before one delivery, or as unassigned. */
  method Solve(e: Engine, iterated: bool, maxIterations: nat) returns (response: Response)
    requires e.Valid()
    ensures Distinct(response.unassigned)
    ensures Conserves(e.N(), Emitted(response.routes), Elements(response.unassigned))
    ensures forall j, k | 0 <= j < k < |response.routes| :: response.routes[j].slot < response.routes[k].slot
    ensures forall k | 0 <= k < |response.routes| :: IsReliable(e, response.routes[k])
  {
    hide IsState, WellFormed, Unmixed, EmittedWell, IsReliable;
    var best;
    if iterated {
      best := BestOfLocalSearch(e, maxIterations);
    } else {
      best := BestOfAnnealing(e, maxIterations);
    }
    StateMeans(e, best);
    StatesAreUnmixed(e, best);
    var routes, unassigned := best.routes, best.unassigned;
    response := BuildFinalResponse(e, routes, unassigned);
    forall k | 0 <= k < |response.routes|
      ensures IsReliable(e, response.routes[k])
    {
      EmittedIsReliable(e, routes, response.routes[k]);
    }
  }
}
