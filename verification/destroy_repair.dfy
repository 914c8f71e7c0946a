/** Taking orders out of routes and inserting them again: two searches that keep the
    cheapest plan they see and never lose or duplicate an order. */
module DestroyRepair {
  import opened Prelude
  import opened DriverMatching
  import opened RouteStops
  import opened RouteSchedule
  import opened OrderConservation
  import opened RouteLoads

  /** The search's fixed data: the request, order weights in grams, which physical vehicles
      an order allows (none listed: all), the vehicle kinds among which empty vehicles are
      interchangeable for insertion, the fast packing check, and the costs. */
  datatype Engine = Engine(
    request: Request, weights: seq<nat>, allowedSources: seq<set<nat>>, sources: seq<nat>, kinds: seq<nat>,
    packs: (nat, Route) -> bool, insertionCost: (nat, Route, Route) -> real, planCost: (seq<Route>, nat) -> int)
  {
    ghost predicate Valid() {
      && WellFormed(request)
      && |weights| == |request.orders| && |allowedSources| == |request.orders|
      && |sources| == |request.vehicles| && |kinds| == |request.vehicles|
    }

    function N(): nat {
      |request.orders|
    }

    predicate Allows(o: nat, v: nat)
      requires Valid() && o < N() && v < |request.vehicles|
    {
      allowedSources[o] == {} || sources[v] in allowedSources[o] || request.vehicles[v].vehicle.id in allowedSources[o]
    }

    predicate HasDriver(v: nat)
      requires Valid() && v < |request.vehicles|
    {
      exists d :: 0 <= d < |request.drivers| && IsLegalPair(request.vehicles[v].vehicle, request.drivers[d])
    }

    /** Payload in grams plus the tolerance of 0.01 kg. */
    function WeightLimit(v: nat): nat
      requires Valid() && v < |request.vehicles|
    {
      1000 * request.vehicles[v].vehicle.payloadKg + 10
    }

    ghost predicate WithinPayload(v: nat, stops: Route)
      requires Valid() && v < |request.vehicles|
    {
      forall k | 0 <= k <= |stops| :: k > 0 ==> Load(weights, stops[..k]) <= WeightLimit(v)
    }

    /** What insertion accepts as a new route of the vehicle. */
    ghost predicate Feasible(v: nat, stops: Route)
      requires Valid() && v < |request.vehicles|
    {
      && HasDriver(v) && WithinPayload(v, stops)
      && ScheduleOf(request, v, stops).Some? && packs(v, stops)
    }

    /** The vehicle may be sent on this route: every stop is of an order that it allows, a
        driver may legally drive it that day, and what is aboard never weighs more than its
        payload and the tolerance. */
    ghost predicate MayDrive(v: nat, stops: Route)
      requires Valid() && v < |request.vehicles|
    {
      && (forall s | s in stops :: s.order < N() && Allows(s.order, v))
      && (stops != [] ==> HasDriver(v))
      && NeverHeavier(weights, stops, WeightLimit(v))
    }

    ghost predicate Respects(routes: seq<Route>)
      requires Valid()
    {
      |routes| == |request.vehicles| && forall v | 0 <= v < |routes| :: MayDrive(v, routes[v])
    }

    ghost predicate CanInsert(v: nat, stops: Route, o: nat, p: nat, d: nat)
      requires Valid() && v < |request.vehicles| && o < N()
    {
      && p < d <= |stops| + 1
      && Allows(o, v) && Feasible(v, Inserted(stops, o, p, d))
    }
  }

  // ---------- insertion ----------

  method CheckPayload(e: Engine, v: nat, stops: Route) returns (ok: bool)
    requires e.Valid() && v < |e.request.vehicles|
    ensures ok <==> e.WithinPayload(v, stops)
  {
    var weight: int := 0;
    for k := 0 to |stops|
      invariant weight == Load(e.weights, stops[..k])
      invariant forall j | 0 < j <= k :: Load(e.weights, stops[..j]) <= e.WeightLimit(v)
    {
      assert stops[..k + 1][..k] == stops[..k];
      weight := weight + WeightChange(e.weights, stops[k]);
      if weight > e.WeightLimit(v) {
        return false;
      }
    }
    return true;
  }

  method TryInsert(e: Engine, v: nat, stops: Route, o: nat, p: nat, d: nat) returns (candidate: Option<Route>)
    requires e.Valid() && v < |e.request.vehicles| && o < e.N() && p < d <= |stops| + 1
    ensures candidate == if e.CanInsert(v, stops, o, p, d) then Some(Inserted(stops, o, p, d)) else None
  {
    if !e.Allows(o, v) || !e.HasDriver(v) {
      return None;
    }
    var inserted := Inserted(stops, o, p, d);
    var fits := CheckPayload(e, v, inserted);
    if !fits {
      return None;
    }
    var schedule := ScheduleStops(e.request, v, inserted);
    if schedule.None? || !e.packs(v, inserted) {
      return None;
    }
    return Some(inserted);
  }

  /** On a route that serves each of its orders once, a new order is accepted at these two
      places exactly when the vehicle may carry it, has a driver, is never overloaded by what
      is then aboard, can make all stops in time and packs them. */
  lemma CanInsertIff(e: Engine, v: nat, stops: Route, o: nat, p: nat, d: nat)
    requires e.Valid() && v < |e.request.vehicles| && o < e.N() && p < d <= |stops| + 1
    requires PicksUpThenDelivers(stops) && o !in OrdersOf(stops)
    ensures var inserted := Inserted(stops, o, p, d);
            e.CanInsert(v, stops, o, p, d) <==>
            && e.Allows(o, v) && e.HasDriver(v)
            && NeverHeavier(e.weights, inserted, 1000 * e.request.vehicles[v].vehicle.payloadKg + 10)
            && ScheduleOf(e.request, v, inserted).Some? && e.packs(v, inserted)
  {
    hide ScheduleFrom, PicksUpThenDelivers, NeverHeavier;
    InsertedPicksUpThenDelivers(stops, o, p, d);
    LoadTestIsExact(e.weights, Inserted(stops, o, p, d), e.WeightLimit(v));
  }

  /** So no vehicle is ever given an order heavier than its payload and ten grams. */
  lemma TooHeavyIsNeverInserted(e: Engine, v: nat, stops: Route, o: nat, p: nat, d: nat)
    requires e.Valid() && v < |e.request.vehicles| && o < e.N() && p < d <= |stops| + 1
    requires PicksUpThenDelivers(stops) && o !in OrdersOf(stops)
    requires e.weights[o] > 1000 * e.request.vehicles[v].vehicle.payloadKg + 10
    ensures !e.CanInsert(v, stops, o, p, d)
  {
    hide ScheduleFrom, WellFormed, Inserted, PicksUpThenDelivers, Engine.CanInsert, NeverHeavier;
    CanInsertIff(e, v, stops, o, p, d);
    if e.CanInsert(v, stops, o, p, d) {
      PickedUpWeighs(e.weights, stops, o, p, d, 1000 * e.request.vehicles[v].vehicle.payloadKg + 10);
    }
  }

  /** Where a pickup and its delivery are tried: everywhere on a short route, at the ends
      of a long one. */
  predicate IsTried(n: nat, p: nat, d: nat) {
    if n <= 4 then p < d <= n + 1
    else d == n + 1 && p in {n, 0, n - 2}
  }

  method Positions(n: nat) returns (positions: seq<(nat, nat)>)
    ensures forall p: nat, d: nat :: (p, d) in positions <==> IsTried(n, p, d)
  {
    if n > 4 {
      return [(n, n + 1), (0, n + 1), (n - 2, n + 1)];
    }
    positions := [];
    for p := 0 to n + 1
      invariant forall q: nat, d: nat :: (q, d) in positions <==> q < p && q < d <= n + 1
    {
      for d := p + 1 to n + 2
        invariant forall q: nat, c: nat :: (q, c) in positions <==> (q < p && q < c <= n + 1) || (q == p && p < c < d)
      {
        positions := positions + [(p, d)];
      }
    }
  }

  datatype Insertion = Insertion(v: nat, stops: Route, cost: real)

  /** Among empty vehicles of one kind only the first that allows the order is tried. */
  ghost predicate Considered(e: Engine, routes: seq<Route>, o: nat, v: nat)
    requires e.Valid() && o < e.N() && v < |routes| == |e.request.vehicles|
  {
    && e.Allows(o, v)
    && (routes[v] == [] ==> forall w | 0 <= w < v :: !(routes[w] == [] && e.Allows(o, w) && e.kinds[w] == e.kinds[v]))
  }

  ghost predicate IsInsertion(e: Engine, routes: seq<Route>, o: nat, best: Insertion)
    requires e.Valid() && o < e.N() && |routes| == |e.request.vehicles|
  {
    && best.v < |routes|
    && best.cost == e.insertionCost(best.v, routes[best.v], best.stops)
    && exists p: nat, d: nat :: e.CanInsert(best.v, routes[best.v], o, p, d)
        && best.stops == Inserted(routes[best.v], o, p, d)
  }

  ghost predicate NoneCheaper(e: Engine, routes: seq<Route>, o: nat, v: nat, best: Option<Insertion>)
    requires e.Valid() && o < e.N() && v < |routes| == |e.request.vehicles|
  {
    forall p: nat, d: nat | IsTried(|routes[v]|, p, d) && e.CanInsert(v, routes[v], o, p, d) ::
      best.Some? && best.value.cost <= e.insertionCost(v, routes[v], Inserted(routes[v], o, p, d))
  }

  /** A cheapest feasible insertion among all that are tried. */
  method BestInsertion(e: Engine, routes: array<Route>, o: nat) returns (best: Option<Insertion>)
    requires e.Valid() && o < e.N() && routes.Length == |e.request.vehicles|
    ensures best.Some? ==> IsInsertion(e, routes[..], o, best.value)
    ensures forall v | 0 <= v < routes.Length && Considered(e, routes[..], o, v) ::
              NoneCheaper(e, routes[..], o, v, best)
  {
    best := None;
    var checkedEmptyKinds: set<nat> := {};
    for v := 0 to routes.Length
      invariant best.Some? ==> IsInsertion(e, routes[..], o, best.value)
      invariant forall k :: k in checkedEmptyKinds <==>
                  exists w :: 0 <= w < v && routes[w] == [] && e.Allows(o, w) && e.kinds[w] == k
      invariant forall w | 0 <= w < v && Considered(e, routes[..], o, w) :: NoneCheaper(e, routes[..], o, w, best)
    {
      if !e.Allows(o, v) {
        continue;
      }
      if routes[v] == [] {
        if e.kinds[v] in checkedEmptyKinds {
          continue;
        }
        checkedEmptyKinds := checkedEmptyKinds + {e.kinds[v]};
      }
      best := BestOnVehicle(e, routes, o, v, best);
    }
  }

  method BestOnVehicle(e: Engine, routes: array<Route>, o: nat, v: nat, before: Option<Insertion>)
      returns (best: Option<Insertion>)
    requires e.Valid() && o < e.N() && v < routes.Length == |e.request.vehicles|
    requires before.Some? ==> IsInsertion(e, routes[..], o, before.value)
    ensures best.Some? ==> IsInsertion(e, routes[..], o, best.value)
    ensures before.Some? ==> best.Some? && best.value.cost <= before.value.cost
    ensures NoneCheaper(e, routes[..], o, v, best)
  {
    var stops := routes[v];
    var positions := Positions(|stops|);
    best := before;
    for k := 0 to |positions|
      invariant best.Some? ==> IsInsertion(e, routes[..], o, best.value)
      invariant before.Some? ==> best.Some? && best.value.cost <= before.value.cost
      invariant forall j | 0 <= j < k && e.CanInsert(v, stops, o, positions[j].0, positions[j].1) ::
                  && best.Some?
                  && best.value.cost <= e.insertionCost(v, stops, Inserted(stops, o, positions[j].0, positions[j].1))
    {
      var (p, d) := positions[k];
      assert (p, d) in positions;
      var candidate := TryInsert(e, v, stops, o, p, d);
      if candidate.Some? {
        var cost := e.insertionCost(v, stops, candidate.value);
        if best.None? || cost < best.value.cost {
          best := Some(Insertion(v, candidate.value, cost));
        }
      }
    }
    forall p: nat, d: nat | IsTried(|stops|, p, d) && e.CanInsert(v, stops, o, p, d)
      ensures best.Some? && best.value.cost <= e.insertionCost(v, stops, Inserted(stops, o, p, d))
    {
      assert (p, d) in positions;
      var j :| 0 <= j < |positions| && positions[j] == (p, d);
    }
  }

  // ---------- lists of orders ----------

  /** First occurrences only, in order. */
  function Deduplicate(s: seq<nat>): (r: seq<nat>)
    ensures Distinct(r) && forall x :: x in r <==> x in s
    ensures |r| <= |s|
  {
    if s == [] then []
    else
      var before := Deduplicate(s[..|s| - 1]);
      assert s == s[..|s| - 1] + [s[|s| - 1]];
      if s[|s| - 1] in before then before else before + [s[|s| - 1]]
  }

  lemma TakeOut(s: seq<nat>, k: nat)
    requires k < |s|
    ensures var rest := s[..k] + s[k + 1..];
            && (forall y :: y in s <==> y in rest || y == s[k])
            && (Distinct(s) ==> Distinct(rest) && s[k] !in rest)
  {
    var rest := s[..k] + s[k + 1..];
    assert s == s[..k] + [s[k]] + s[k + 1..];
    forall i, j | 0 <= i < j < |rest|
      ensures Distinct(s) ==> rest[i] != rest[j]
    {
      assert rest[i] == s[if i < k then i else i + 1] && rest[j] == s[if j < k then j else j + 1];
    }
  }

  /** Some of the list's elements, in any order: all of them when `count` allows. */
  method Sample(s: seq<nat>, count: nat) returns (sample: seq<nat>)
    ensures |sample| == if count < |s| then count else |s|
    ensures forall x | x in sample :: x in s
    ensures count >= |s| ==> forall x | x in s :: x in sample
    ensures Distinct(s) ==> Distinct(sample)
  {
    hide Distinct;
    sample := [];
    NoElements();
    var left := s;
    while |sample| < count && left != []
      invariant |sample| + |left| == |s| && |sample| <= count
      invariant forall x :: x in s <==> x in sample || x in left
      invariant Distinct(s) ==> Distinct(sample) && Distinct(left) && forall x | x in sample :: x !in left
      decreases |left|
    {
      var k: nat := *;
      k := k % |left|;
      var x, rest := left[k], left[..k] + left[k + 1..];
      TakeOut(left, k);
      AppendNew(sample, x);
      sample, left := sample + [x], rest;
    }
  }

  // ---------- repair ----------

  /** A route that repair has changed is feasible; the others are as they were. */
  ghost predicate OnlyFeasibleChanges(e: Engine, before: seq<Route>, after: seq<Route>)
    requires e.Valid()
  {
    && |after| == |before| == |e.request.vehicles|
    && forall v | 0 <= v < |after| :: after[v] == before[v] || e.Feasible(v, after[v])
  }

  /** One order's turn: its cheapest insertion is made, or it stays out because time was up
      or nothing considered was feasible. */
  datatype Turn = Turn(order: nat, timeIsUp: bool, before: seq<Route>, after: seq<Route>, inserted: bool)

  ghost predicate IsGreedyTurn(e: Engine, t: Turn)
    requires e.Valid()
  {
    && |t.before| == |e.request.vehicles| && t.order < e.N()
    && if t.inserted
       then exists best :: IsCheapest(e, t.before, t.order, best) && t.after == t.before[best.v := best.stops]
       else t.after == t.before && (t.timeIsUp || NothingFits(e, t.before, t.order))
  }

  ghost predicate IsCheapest(e: Engine, routes: seq<Route>, o: nat, best: Insertion)
    requires e.Valid() && o < e.N() && |routes| == |e.request.vehicles|
  {
    && IsInsertion(e, routes, o, best)
    && forall v | 0 <= v < |routes| && Considered(e, routes, o, v) :: NoneCheaper(e, routes, o, v, Some(best))
  }

  ghost predicate NothingFits(e: Engine, routes: seq<Route>, o: nat)
    requires e.Valid() && o < e.N() && |routes| == |e.request.vehicles|
  {
    forall v | 0 <= v < |routes| && Considered(e, routes, o, v) :: NoneCheaper(e, routes, o, v, None)
  }

  ghost function FailedOf(turns: seq<Turn>): seq<nat> {
    if turns == [] then []
    else FailedOf(turns[..|turns| - 1]) + if turns[|turns| - 1].inserted then [] else [turns[|turns| - 1].order]
  }

  /** A greedy run through the orders, one turn each, from the first plan to the last. */
  ghost predicate IsGreedyRun(e: Engine, first: seq<Route>, turns: seq<Turn>, last: seq<Route>)
    requires e.Valid()
  {
    if turns == [] then first == last
    else
      var t := turns[|turns| - 1];
      IsGreedyTurn(e, t) && t.after == last && IsGreedyRun(e, first, turns[..|turns| - 1], t.before)
  }

  ghost function OrdersTried(turns: seq<Turn>): (orders: seq<nat>)
    ensures |orders| == |turns|
  {
    seq(|turns|, k requires 0 <= k < |turns| => turns[k].order)
  }

  lemma OneTurnMore(e: Engine, first: seq<Route>, turns: seq<Turn>, t: Turn)
    requires e.Valid() && IsGreedyRun(e, first, turns, t.before) && IsGreedyTurn(e, t)
    ensures IsGreedyRun(e, first, turns + [t], t.after)
    ensures FailedOf(turns + [t]) == FailedOf(turns) + if t.inserted then [] else [t.order]
    ensures OrdersTried(turns + [t]) == OrdersTried(turns) + [t.order]
  {
    hide IsGreedyTurn;
    assert (turns + [t])[..|turns|] == turns;
  }

  lemma NextInPool(n: nat, routes: seq<Route>, out: set<nat>, pool: seq<nat>, list: seq<nat>, k: nat)
    requires Conserves(n, routes, out) && Distinct(list) && k < |list| && Elements(list[k..]) <= out
    requires forall x | x in list :: x in pool
    ensures list[k] < n && list[k] in out && list[k] in Elements(pool) && list[k] !in Elements(list[k + 1..])
    ensures Elements(list[k..]) == {list[k]} + Elements(list[k + 1..])
  {
    assert list[k..] == [list[k]] + list[k + 1..];
    assert list[k] in Elements(list[k..]);
    assert Accounted(n, routes, out, list[k]);
  }

  lemma NoElements()
    ensures Distinct<nat>([])
  {
  }

  lemma AppendNew(s: seq<nat>, x: nat)
    ensures Elements(s + [x]) == Elements(s) + {x}
    ensures Distinct(s) && x !in Elements(s) ==> Distinct(s + [x])
  {
    assert forall k | 0 <= k < |s| :: s[k] in Elements(s);
  }

  lemma InsertedAt(e: Engine, routes: seq<Route>, o: nat, best: Insertion) returns (p: nat, d: nat)
    requires e.Valid() && o < e.N() && |routes| == |e.request.vehicles| && IsInsertion(e, routes, o, best)
    ensures e.CanInsert(best.v, routes[best.v], o, p, d) && best.stops == Inserted(routes[best.v], o, p, d)
  {
    p, d :| e.CanInsert(best.v, routes[best.v], o, p, d) && best.stops == Inserted(routes[best.v], o, p, d);
  }

  lemma InsertRespects(e: Engine, routes: seq<Route>, out: set<nat>, o: nat, best: Insertion)
    requires e.Valid() && o < e.N() && e.Respects(routes) && IsInsertion(e, routes, o, best)
    requires Conserves(e.N(), routes[best.v := best.stops], out)
    ensures e.Respects(routes[best.v := best.stops])
    ensures e.Feasible(best.v, best.stops)
  {
    hide NeverHeavier, WellFormed, Conserves, ScheduleFrom;
    var p, d := InsertedAt(e, routes, o, best);
    var stops := routes[best.v];
    assert stops == stops[..p] + stops[p..d - 1] + stops[d - 1..];
    forall s | s in best.stops
      ensures s in stops || s.order == o
    {
    }
    assert e.MayDrive(best.v, stops);
    PlannedPicksUpThenDelivers(e.N(), routes[best.v := best.stops], out, best.v);
    LoadTestIsExact(e.weights, best.stops, e.WeightLimit(best.v));
  }

  /** Time was not up at any of these turns. */
  ghost predicate OnTime(turns: seq<Turn>) {
    forall t | t in turns :: !t.timeIsUp
  }

  /** Inserts the orders of the pool one by one where that is cheapest, until time is up.
      Time may run out only if the run is `timed`, and once it has it stays so. */
  method RepairGreedyInsert(e: Engine, routes: array<Route>, pool: seq<nat>, timed: bool, late: bool,
      ghost elsewhere: set<nat>)
    returns (failed: seq<nat>, timedOut: bool, ghost turns: seq<Turn>)
    requires e.Valid() && e.Respects(routes[..]) && Distinct(pool) && Elements(pool) !! elsewhere
    requires Conserves(e.N(), routes[..], elsewhere + Elements(pool))
    modifies routes
    ensures Conserves(e.N(), routes[..], elsewhere + Elements(failed))
    ensures e.Respects(routes[..]) && Distinct(failed) && Elements(failed) <= Elements(pool)
    ensures OnlyFeasibleChanges(e, old(routes[..]), routes[..])
    ensures IsGreedyRun(e, old(routes[..]), turns, routes[..]) && failed == FailedOf(turns)
    ensures Distinct(OrdersTried(turns)) && Elements(OrdersTried(turns)) == Elements(pool)
    ensures late ==> timedOut
    ensures !timed ==> timedOut == late
    ensures !timed || !timedOut ==> OnTime(turns)
  {
    hide Conserves, Distinct, WellFormed, IsGreedyRun, IsGreedyTurn, FailedOf, OrdersTried, IsInsertion, Considered,
        NoneCheaper, Engine.MayDrive, Engine.Feasible;
    failed, turns, timedOut := [], [], late;
    assert Distinct<nat>([]) by { NoElements(); }
    var ordersToInsert := Sample(pool, |pool|);
    ghost var out := elsewhere + Elements(pool);
    NoTurns(e, routes[..]);
    assert ordersToInsert[..0] == [];
    for k := 0 to |ordersToInsert|
      invariant Conserves(e.N(), routes[..], out) && e.Respects(routes[..])
      invariant out == elsewhere + Elements(failed) + Elements(ordersToInsert[k..])
      invariant Distinct(failed) && Elements(failed) <= Elements(pool)
      invariant Elements(failed) !! Elements(ordersToInsert[k..])
      invariant OnlyFeasibleChanges(e, old(routes[..]), routes[..])
      invariant IsGreedyRun(e, old(routes[..]), turns, routes[..]) && failed == FailedOf(turns)
      invariant OrdersTried(turns) == ordersToInsert[..k]
      invariant late ==> timedOut
      invariant !timed ==> timedOut == late
      invariant !timed || !timedOut ==> OnTime(turns)
    {
      var o := ordersToInsert[k];
      if timed && !timedOut {
        timedOut := *;
      }
      var timeIsUp := timed && timedOut;
      var best: Option<Insertion> := None;
      NextInPool(e.N(), routes[..], out, pool, ordersToInsert, k);
      assert ordersToInsert[..k + 1] == ordersToInsert[..k] + [o];
      if !timeIsUp {
        best := BestInsertion(e, routes, o);
      }
      ghost var before := routes[..];
      ghost var after := if best.Some? then before[best.value.v := best.value.stops] else before;
      ghost var turn := Turn(o, timeIsUp, before, after, best.Some?);
      assert IsGreedyTurn(e, turn) by { GreedyTurn(e, turn, best); }
      OneTurnMore(e, old(routes[..]), turns, turn);
      turns := turns + [turn];
      if best.Some? {
        ghost var p, d := InsertedAt(e, before, o, best.value);
        InsertConserves(e.N(), before, out, o, best.value.v, p, d);
        routes[best.value.v] := best.value.stops;
        assert routes[..] == before[best.value.v := best.value.stops];
        out := out - {o};
        InsertRespects(e, before, out, o, best.value);
      } else {
        AppendNew(failed, o);
        failed := failed + [o];
      }
    }
    assert ordersToInsert[|ordersToInsert|..] == [] && ordersToInsert[..|ordersToInsert|] == ordersToInsert;
    assert out == elsewhere + Elements(failed);
  }

  lemma NoTurns(e: Engine, routes: seq<Route>)
    requires e.Valid()
    ensures IsGreedyRun(e, routes, [], routes) && FailedOf([]) == [] && OrdersTried([]) == []
  {
  }

  lemma GreedyTurn(e: Engine, t: Turn, best: Option<Insertion>)
    requires e.Valid() && |t.before| == |e.request.vehicles| && t.order < e.N()
    requires best.Some? ==> IsInsertion(e, t.before, t.order, best.value)
    requires t.timeIsUp ||
             forall v | 0 <= v < |t.before| && Considered(e, t.before, t.order, v) ::
               NoneCheaper(e, t.before, t.order, v, best)
    requires t.inserted == best.Some? && (t.timeIsUp ==> best.None?)
    requires t.after == if best.Some? then t.before[best.value.v := best.value.stops] else t.before
    ensures IsGreedyTurn(e, t)
  {
    hide IsInsertion, Considered, NoneCheaper;
    if best.Some? {
      assert IsCheapest(e, t.before, t.order, best.value);
    }
  }

  // ---------- destroy ----------

  method CopyRoutes(routes: array<Route>) returns (copy: array<Route>)
    ensures fresh(copy) && copy[..] == routes[..]
  {
    copy := new Route[routes.Length](v requires 0 <= v < routes.Length reads routes => routes[v]);
    assert copy[..] == routes[..];
  }

  method RemoveOrders(routes: array<Route>, gone: set<nat>) returns (kept: array<Route>)
    ensures fresh(kept) && kept.Length == routes.Length
    ensures forall v | 0 <= v < routes.Length :: kept[v] == WithoutOrders(routes[v], gone)
  {
    kept := new Route[routes.Length](v requires 0 <= v < routes.Length reads routes => WithoutOrders(routes[v], gone));
  }

  /** The orders picked up on some route, in route order. */
  method AssignedOrders(routes: array<Route>) returns (placed: seq<nat>)
    ensures forall o :: o in placed <==> exists v :: 0 <= v < routes.Length && Pickup(o) in routes[v]
    ensures PickedUpOnce(routes[..]) ==> Distinct(placed)
  {
    placed := [];
    for v := 0 to routes.Length
      invariant forall o :: o in placed <==> exists w :: 0 <= w < v && Pickup(o) in routes[w]
      invariant PickedUpOnce(routes[..]) ==> Distinct(placed)
    {
      ghost var before := placed;
      var stops := routes[v];
      for k := 0 to |stops|
        invariant forall o :: o in placed <==> o in before || Pickup(o) in stops[..k]
        invariant PickedUpOnce(routes[..]) ==> Distinct(placed)
      {
        assert stops[..k + 1] == stops[..k] + [stops[k]];
        if stops[k].Pickup? {
          if PickedUpOnce(routes[..]) {
            NotYetListed(routes[..], v, k, before);
            AppendNew(placed, stops[k].order);
          }
          placed := placed + [stops[k].order];
        }
      }
      assert stops[..|stops|] == stops;
    }
  }

  lemma RemovedRespects(e: Engine, routes: seq<Route>, gone: set<nat>, kept: seq<Route>)
    requires e.Valid() && e.Respects(routes) && |kept| == |routes|
    requires forall v | 0 <= v < |routes| :: kept[v] == WithoutOrders(routes[v], gone)
    ensures e.Respects(kept)
  {
    hide NeverHeavier, WellFormed;
    forall v | 0 <= v < |kept|
      ensures e.MayDrive(v, kept[v])
    {
      assert e.MayDrive(v, routes[v]);
      WithoutIsNeverHeavier(e.weights, routes[v], gone, e.WeightLimit(v));
    }
  }

  lemma NotYetListed(routes: seq<Route>, v: nat, k: nat, before: seq<nat>)
    requires PickedUpOnce(routes) && v < |routes| && k < |routes[v]| && routes[v][k].Pickup?
    requires forall o | o in before :: exists w :: 0 <= w < v && Pickup(o) in routes[w]
    ensures routes[v][k].order !in before && routes[v][k] !in routes[v][..k]
  {
  }

  /** All orders but those left out are listed, each once. */
  lemma PlacedCount(n: nat, routes: seq<Route>, out: set<nat>, placed: seq<nat>)
    requires Conserves(n, routes, out) && Distinct(placed)
    requires forall o :: o in placed <==> exists v :: 0 <= v < |routes| && Pickup(o) in routes[v]
    ensures |placed| == n - |out|
    ensures forall o: nat :: o in placed <==> o < n && o !in out
  {
    forall o: nat
      ensures o in placed <==> o < n && o !in out
    {
      PickedUpIffPlaced(n, routes, out, o);
    }
    var all := FirstIndices(n);
    forall o | o in out
      ensures o in all
    {
      assert Accounted(n, routes, out, o);
    }
    assert Elements(placed) == all - out;
    assert |all - out| == |all| - |out|;
    DistinctSize(placed);
  }

  /** The orders are taken out of every route and nothing else changes. */
  ghost predicate TakesOut(before: seq<Route>, removed: seq<nat>, remaining: seq<Route>) {
    && |remaining| == |before|
    && forall v | 0 <= v < |before| :: remaining[v] == WithoutOrders(before[v], Elements(removed))
  }

  /** What taking orders out of a plan promises: exactly they go, and they join those left out. */
  ghost predicate Destroyed(e: Engine, before: seq<Route>, out: set<nat>, remaining: seq<Route>, removed: seq<nat>)
    requires e.Valid()
  {
    && TakesOut(before, removed, remaining)
    && Conserves(e.N(), remaining, out + Elements(removed))
    && e.Respects(remaining)
    && Distinct(removed) && Elements(removed) !! out
  }

  method DestroyRandom(e: Engine, routes: array<Route>, ghost out: set<nat>, numRemove: nat)
    returns (remaining: array<Route>, removed: seq<nat>)
    requires e.Valid() && e.Respects(routes[..]) && Conserves(e.N(), routes[..], out)
    ensures Destroyed(e, routes[..], out, remaining[..], removed)
    ensures |removed| == Min(numRemove, e.N() - |out|)
    ensures fresh(remaining) || (remaining == routes && forall v | 0 <= v < routes.Length :: routes[v] == [])
  {
    hide Conserves, PickedUpOnce, WellFormed;
    var placed := AssignedOrders(routes);
    PickupsHappenOnce(e.N(), routes[..], out);
    PlacedCount(e.N(), routes[..], out, placed);
    if placed == [] {
      NothingAssigned(e.N(), routes[..], out);
      NoElements();
      NothingToTakeOut(routes[..]);
      assert out + Elements<nat>([]) == out;
      return routes, [];
    }
    var sample := Sample(placed, numRemove);
    removed := Deduplicate(sample);
    SameSize(sample, removed);
    remaining := RemoveOrders(routes, Elements(removed));
    assert TakesOut(routes[..], removed, remaining[..]);
    TakenOut(e, routes[..], out, placed, removed, remaining[..]);
  }

  lemma TakenOut(e: Engine, routes: seq<Route>, out: set<nat>, placed: seq<nat>, removed: seq<nat>,
      remaining: seq<Route>)
    requires e.Valid() && e.Respects(routes) && Conserves(e.N(), routes, out)
    requires forall o: nat | o in placed :: o < e.N() && o !in out
    requires Distinct(removed) && forall o | o in removed :: o in placed
    requires TakesOut(routes, removed, remaining)
    ensures Destroyed(e, routes, out, remaining, removed)
  {
    hide Conserves, WellFormed;
    RemoveConserves(e.N(), routes, out, Elements(removed), remaining);
    RemovedRespects(e, routes, Elements(removed), remaining);
  }

  lemma SameSize(s: seq<nat>, r: seq<nat>)
    requires Distinct(s) && Distinct(r) && forall x :: x in r <==> x in s
    ensures |r| == |s|
  {
    DistinctSize(s);
    DistinctSize(r);
    assert Elements(r) == Elements(s);
  }

  lemma NothingAssigned(n: nat, routes: seq<Route>, out: set<nat>)
    requires Conserves(n, routes, out)
    requires forall o :: !exists v :: 0 <= v < |routes| && Pickup(o) in routes[v]
    ensures forall v | 0 <= v < |routes| :: routes[v] == []
  {
    forall v | 0 <= v < |routes|
      ensures routes[v] == []
    {
      RouteHoldsOrders(n, routes, out, v);
    }
  }

  lemma NothingToTakeOut(routes: seq<Route>)
    requires forall v | 0 <= v < |routes| :: routes[v] == []
    ensures TakesOut(routes, [], routes)
  {
  }

  function OrderList(stops: Route): (orders: seq<nat>)
    ensures forall o :: o in orders <==> o in OrdersOf(stops)
  {
    if stops == [] then []
    else
      assert stops == [stops[0]] + stops[1..];
      [stops[0].order] + OrderList(stops[1..])
  }

  method ActiveRoutes(routes: array<Route>) returns (active: seq<nat>)
    ensures forall v: nat :: v in active <==> v < routes.Length && routes[v] != []
    ensures forall k | 0 <= k < |active| :: active[k] < routes.Length
  {
    active := [];
    for v := 0 to routes.Length
      invariant forall w: nat :: w in active <==> w < v && routes[w] != []
      invariant forall k | 0 <= k < |active| :: active[k] < v
    {
      if routes[v] != [] {
        active := active + [v];
      }
    }
  }

  /** No active route has fewer orders. */
  ghost predicate IsSmallest(routes: seq<Route>, victim: nat) {
    && victim < |routes| && routes[victim] != []
    && forall v | 0 <= v < |routes| && routes[v] != [] :: |OrdersOf(routes[victim])| <= |OrdersOf(routes[v])|
  }

  method SmallestRoute(routes: array<Route>, active: seq<nat>) returns (victim: nat)
    requires active != [] && forall v: nat :: v in active <==> v < routes.Length && routes[v] != []
    requires forall k | 0 <= k < |active| :: active[k] < routes.Length
    ensures IsSmallest(routes[..], victim)
  {
    assert active[0] in active;
    victim := active[0];
    for k := 1 to |active|
      invariant victim < routes.Length && routes[victim] != []
      invariant forall j | 0 <= j < k :: |OrdersOf(routes[victim])| <= |OrdersOf(routes[active[j]])|
    {
      assert active[k] in active;
      if |OrdersOf(routes[active[k]])| < |OrdersOf(routes[victim])| {
        victim := active[k];
      }
    }
    forall v | 0 <= v < routes.Length && routes[v] != []
      ensures |OrdersOf(routes[victim])| <= |OrdersOf(routes[v])|
    {
      assert v in active;
      var j :| 0 <= j < |active| && active[j] == v;
    }
  }

  /** Empties the active route with the fewest orders, unless it is the only one. */
  method DestroySmallRoute(e: Engine, routes: array<Route>, ghost out: set<nat>)
    returns (remaining: array<Route>, removed: seq<nat>, ghost victim: Option<nat>)
    requires e.Valid() && e.Respects(routes[..]) && Conserves(e.N(), routes[..], out)
    requires exists v :: 0 <= v < routes.Length && routes[v] != []
    ensures Destroyed(e, routes[..], out, remaining[..], removed) && fresh(remaining)
    ensures victim.Some? ==>
              && IsSmallest(routes[..], victim.value)
              && remaining[..] == routes[..][victim.value := []] && Elements(removed) == OrdersOf(routes[victim.value])
    ensures victim.None? ==>
              && |removed| == Min(2, e.N() - |out|)
              && forall v, w | 0 <= v < w < routes.Length :: routes[v] == [] || routes[w] == []
  {
    hide Conserves, IsSmallest, WellFormed, TakesOut, Engine.Respects;
    var active := ActiveRoutes(routes);
    if |active| <= 1 {
      assert forall v | 0 <= v < routes.Length && routes[v] != [] :: v in active;
      remaining, removed := DestroyRandom(e, routes, out, 2);
      victim := None;
      return;
    }
    var v := SmallestRoute(routes, active);
    assert v < routes.Length by { SmallestIsRoute(routes[..], v); }
    var stops := routes[v];
    removed := Deduplicate(OrderList(stops));
    remaining := CopyRoutes(routes);
    remaining[v] := [];
    assert remaining[..] == routes[..][v := []];
    ClearConserves(e.N(), routes[..], out, v);
    assert Elements(removed) == OrdersOf(stops);
    ClearingTakesOut(e.N(), routes[..], out, v, removed);
    EmptiedRespects(e, routes[..], v);
    victim := Some(v);
  }

  lemma EmptyMayDrive(e: Engine, v: nat)
    requires e.Valid() && v < |e.request.vehicles|
    ensures e.MayDrive(v, [])
  {
    NothingAboard(e.weights);
    var nothing: Route := [];
    assert nothing[..0] == [];
  }

  lemma EmptiedRespects(e: Engine, routes: seq<Route>, v: nat)
    requires e.Valid() && e.Respects(routes) && v < |routes|
    ensures e.Respects(routes[v := []])
  {
    hide Engine.MayDrive, WellFormed;
    EmptyMayDrive(e, v);
  }

  /** Emptying a route takes exactly its orders out of the plan. */
  lemma ClearingTakesOut(n: nat, routes: seq<Route>, out: set<nat>, v: nat, removed: seq<nat>)
    requires Conserves(n, routes, out) && v < |routes| && Elements(removed) == OrdersOf(routes[v])
    ensures TakesOut(routes, removed, routes[v := []])
  {
    var gone := OrdersOf(routes[v]);
    RouteHoldsOrders(n, routes, out, v);
    forall w | 0 <= w < |routes|
      ensures routes[v := []][w] == WithoutOrders(routes[w], gone)
    {
      if w == v {
        WithoutItsOrders(routes[v], gone);
      } else {
        forall o | o in gone
          ensures o !in OrdersOf(routes[w])
        {
          assert PlacedOn(routes, o, v);
          MentionedIffOnRoute(routes[w], o);
        }
        WithoutOtherOrders(routes[w], gone);
      }
    }
  }

  lemma SmallestIsRoute(routes: seq<Route>, victim: nat)
    requires IsSmallest(routes, victim)
    ensures victim < |routes| && routes[victim] != []
  {
  }
}
