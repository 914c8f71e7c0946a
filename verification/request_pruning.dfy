/** Dropping vehicle slots that cannot serve any order, without changing what the rest can do. */
module RequestPruning {
  import opened Prelude
  import opened DriverMatching
  import opened RouteStops
  import opened RouteSchedule

  predicate CanServeWithZeroTravel(slot: Slot, order: Order) {
    var pickup := Max(slot.start, order.pickupStart);
    if pickup > order.pickupEnd then false
    else
      var delivery := Max(pickup + order.serviceTime, order.deliveryStart);
      if delivery > order.deliveryEnd then false
      else delivery + order.serviceTime <= slot.end
  }

  predicate CanServeSome(slot: Slot, orders: seq<Order>) {
    exists o :: 0 <= o < |orders| && CanServeWithZeroTravel(slot, orders[o])
  }

  /** The indices below `n`, in increasing order, that `keep` accepts. */
  function Indices(n: nat, keep: nat -> bool): (kept: seq<nat>)
    ensures forall k: nat :: k in kept <==> k < n && keep(k)
    ensures forall i | 0 <= i < |kept| :: kept[i] < n && keep(kept[i])
    ensures forall i, j | 0 <= i < j < |kept| :: kept[i] < kept[j]
    ensures |kept| <= n
  {
    if n == 0 then []
    else
      var before := Indices(n - 1, keep);
      if keep(n - 1) then before + [n - 1] else before
  }

  function RetainedVehicles(r: Request): seq<nat> {
    Indices(|r.vehicles|, (v: nat) => v < |r.vehicles| && CanServeSome(r.vehicles[v], r.orders))
  }

  predicate IsRetainedDay(r: Request, day: nat) {
    exists j :: 0 <= j < |RetainedVehicles(r)| && r.vehicles[RetainedVehicles(r)[j]].vehicle.day == day
  }

  function RetainedDrivers(r: Request): seq<nat> {
    Indices(|r.drivers|, (d: nat) => d < |r.drivers| && IsRetainedDay(r, r.drivers[d].day))
  }

  predicate KeepsRequest(r: Request) {
    || |RetainedVehicles(r)| == |r.vehicles| || RetainedVehicles(r) == []
    || |RetainedDrivers(r)| < |RetainedVehicles(r)|
  }

  /** The node of the full request that a node of the reduced one stands for. */
  function RetainedNodes(r: Request): (nodes: seq<nat>)
    ensures |nodes| == |RetainedVehicles(r)| + 2 * |r.orders|
    ensures forall k | 0 <= k < |nodes| :: nodes[k] < NodeCount(r)
  {
    RetainedVehicles(r) + seq(2 * |r.orders|, k requires 0 <= k < 2 * |r.orders| => |r.vehicles| + k)
  }

  function SliceMatrix(m: Matrix, nodes: seq<nat>): (sliced: Matrix)
    requires forall k | 0 <= k < |nodes| :: nodes[k] < |m|
    requires forall j | 0 <= j < |m| :: |m[j]| == |m|
    ensures |sliced| == |nodes| && forall j | 0 <= j < |nodes| :: |sliced[j]| == |nodes|
    ensures forall j, k | 0 <= j < |nodes| && 0 <= k < |nodes| :: sliced[j][k] == m[nodes[j]][nodes[k]]
  {
    seq(|nodes|, j requires 0 <= j < |nodes| => seq(|nodes|, k requires 0 <= k < |nodes| => m[nodes[j]][nodes[k]]))
  }

  function Pick<T>(s: seq<T>, indices: seq<nat>): (picked: seq<T>)
    requires forall k | 0 <= k < |indices| :: indices[k] < |s|
    ensures |picked| == |indices| && forall k | 0 <= k < |indices| :: picked[k] == s[indices[k]]
  {
    seq(|indices|, k requires 0 <= k < |indices| => s[indices[k]])
  }

  /** The reduced request and the number of slots removed. */
  function Prune(r: Request): (pruned: (Request, nat))
    requires WellFormed(r)
    ensures WellFormed(pruned.0)
    ensures pruned.1 == |r.vehicles| - |pruned.0.vehicles|
    ensures pruned.1 == 0 ==> pruned.0 == r
  {
    if KeepsRequest(r) then (r, 0)
    else
      var nodes := RetainedNodes(r);
      var vehicles := Pick(r.vehicles, RetainedVehicles(r));
      (Request(vehicles, Pick(r.drivers, RetainedDrivers(r)), r.orders,
               SliceMatrix(r.distance, nodes), SliceMatrix(r.duration, nodes)),
       |r.vehicles| - |vehicles|)
  }

  // ---------- a removed slot was of no use ----------

  /** Some order is picked up and later delivered. */
  ghost predicate ServesOrder(stops: seq<RouteStop>, o: nat) {
    exists j, k :: 0 <= j < k < |stops| && stops[j] == Pickup(o) && stops[k] == Delivery(o)
  }

  /** Time never runs backwards, so every stop is reached after the clock and ends the shift in time. */
  lemma {:induction false} StopsFollowClock(r: Request, v: nat, previous: nat, clock: int, sequence: nat,
      stops: seq<RouteStop>, k: nat)
    requires WellFormed(r) && v < |r.vehicles| && IsNode(r, previous) && k < |stops|
    requires ScheduleFrom(r, v, previous, clock, sequence, stops).Some?
    ensures stops[k].order < |r.orders|
    ensures Max(clock, WindowStart(r, stops[k])) <= WindowEnd(r, stops[k])
    ensures Max(clock, WindowStart(r, stops[k])) + r.orders[stops[k].order].serviceTime <= r.vehicles[v].end
    decreases k
  {
    LegIsTimely(r, v, previous, clock, sequence, stops[0]);
    if k == 0 {
    } else {
      var timed := TimedAt(r, previous, clock, sequence, stops[0]);
      StopsFollowClock(r, v, NodeOf(r, stops[0]), timed.departure, sequence + 1, stops[1..], k - 1);
    }
  }

  lemma FirstStopTimes(r: Request, v: nat, previous: nat, clock: int, sequence: nat, stops: seq<RouteStop>)
    requires WellFormed(r) && v < |r.vehicles| && IsNode(r, previous) && stops != []
    requires ScheduleFrom(r, v, previous, clock, sequence, stops).Some?
    ensures stops[0].order < |r.orders|
    ensures var timed := TimedAt(r, previous, clock, sequence, stops[0]);
            && Max(clock, WindowStart(r, stops[0])) <= timed.arrival <= WindowEnd(r, stops[0])
            && timed.departure == timed.arrival + r.orders[stops[0].order].serviceTime <= r.vehicles[v].end
            && ScheduleFrom(r, v, NodeOf(r, stops[0]), timed.departure, sequence + 1, stops[1..]).Some?
  {
    LegIsTimely(r, v, previous, clock, sequence, stops[0]);
  }

  lemma {:induction false} DeliveryAfterPickup(r: Request, v: nat, previous: nat, clock: int, sequence: nat,
      stops: seq<RouteStop>,
                                               o: nat, j: nat, k: nat)
    requires WellFormed(r) && v < |r.vehicles| && IsNode(r, previous) && r.vehicles[v].start <= clock
    requires ScheduleFrom(r, v, previous, clock, sequence, stops).Some?
    requires j < k < |stops| && stops[j] == Pickup(o) && stops[k] == Delivery(o)
    ensures o < |r.orders| && CanServeWithZeroTravel(r.vehicles[v], r.orders[o])
    decreases j
  {
    hide ScheduleFrom, TimedAt;
    FirstStopTimes(r, v, previous, clock, sequence, stops);
    var timed := TimedAt(r, previous, clock, sequence, stops[0]);
    if j > 0 {
      DeliveryAfterPickup(r, v, NodeOf(r, stops[0]), timed.departure, sequence + 1, stops[1..], o, j - 1, k - 1);
    } else {
      StopsFollowClock(r, v, NodeOf(r, stops[0]), timed.departure, sequence + 1, stops[1..], k - 1);
    }
  }

  /** A slot that cannot serve any order even with zero travel schedules no route that
      serves one, whatever the travel times. */
  lemma RemovedSlotServesNothing(r: Request, v: nat, stops: seq<RouteStop>, o: nat)
    requires WellFormed(r) && v < |r.vehicles| && v !in RetainedVehicles(r)
    requires ServesOrder(stops, o)
    ensures ScheduleOf(r, v, stops) == None
  {
    if ScheduleOf(r, v, stops).Some? {
      var j, k :| 0 <= j < k < |stops| && stops[j] == Pickup(o) && stops[k] == Delivery(o);
      DeliveryAfterPickup(r, v, v, r.vehicles[v].start, 1, stops, o, j, k);
    }
  }

  /** The test is exact for what it claims to bound: when no leg takes any time, it accepts
      an order for a slot just when the order's own route can be scheduled there. */
  lemma ZeroTravelTestIsExact(r: Request, v: nat, o: nat)
    requires WellFormed(r) && v < |r.vehicles| && o < |r.orders|
    requires forall from, to | IsNode(r, from) && IsNode(r, to) :: DurationOf(r, from, to) == 0.0
    ensures CanServeWithZeroTravel(r.vehicles[v], r.orders[o]) <==>
            ScheduleOf(r, v, [Pickup(o), Delivery(o)]).Some?
  {
    var slot, order := r.vehicles[v], r.orders[o];
    var stops := [Pickup(o), Delivery(o)];
    if ScheduleOf(r, v, stops).Some? {
      DeliveryAfterPickup(r, v, v, slot.start, 1, stops, o, 0, 1);
    }
    if CanServeWithZeroTravel(slot, order) {
      var pickup := Max(slot.start, order.pickupStart);
      var delivery := Max(pickup + order.serviceTime, order.deliveryStart);
      var node := NodeOf(r, stops[1]);
      assert IsNode(r, node) && IsNode(r, v);
      assert stops[1..] == [Delivery(o)] && stops[1..][1..] == [];
      assert CanArrive(r, v, node, delivery + order.serviceTime, [], []);
      assert CanArrive(r, v, NodeOf(r, stops[0]), pickup + order.serviceTime, stops[1..], [delivery]);
      assert [pickup, delivery][1..] == [delivery];
      assert CanArrive(r, v, v, slot.start, stops, [pickup, delivery]);
      ScheduleIsEarliest(r, v, v, slot.start, slot.start, 1, stops, [pickup, delivery]);
    }
  }

  // ---------- exactly the useless slots go ----------

  /** The request as if no leg took any time. */
  function WithoutTravel(r: Request): Request {
    r.(duration := seq(NodeCount(r), j => seq(NodeCount(r), k => 0.0)))
  }

  /** If travel took no time, some order could be served there on its own. */
  ghost predicate IsUseful(r: Request, v: nat)
    requires WellFormed(r)
  {
    v < |r.vehicles| && exists o :: 0 <= o < |r.orders| && ServesAlone(r, v, o)
  }

  ghost predicate ServesAlone(r: Request, v: nat, o: nat)
    requires WellFormed(r) && v < |r.vehicles|
  {
    ScheduleOf(WithoutTravel(r), v, [Pickup(o), Delivery(o)]).Some?
  }

  /** The driver works on the day of some useful slot. */
  ghost predicate IsNeeded(r: Request, d: nat)
    requires WellFormed(r)
  {
    d < |r.drivers| && exists v: nat :: IsUseful(r, v) && r.vehicles[v].vehicle.day == r.drivers[d].day
  }

  ghost function UsefulSlots(r: Request): set<nat>
    requires WellFormed(r)
  {
    set v | v in FirstIndices(|r.vehicles|) && IsUseful(r, v)
  }

  ghost function NeededDrivers(r: Request): set<nat>
    requires WellFormed(r)
  {
    set d | d in FirstIndices(|r.drivers|) && IsNeeded(r, d)
  }

  /** The elements at the chosen positions, in order. */
  ghost predicate IsSelection<T>(s: seq<T>, chosen: set<nat>, picked: seq<T>) {
    exists kept: seq<nat> :: Selects(s, chosen, picked, kept)
  }

  ghost predicate Selects<T>(s: seq<T>, chosen: set<nat>, picked: seq<T>, kept: seq<nat>) {
    && Elements(kept) == chosen && |picked| == |kept|
    && Increasing(kept)
    && forall k | 0 <= k < |kept| :: kept[k] < |s| && picked[k] == s[kept[k]]
  }

  lemma UsefulIffRetained(r: Request, v: nat)
    requires WellFormed(r) && v < |r.vehicles|
    ensures IsUseful(r, v) <==> v in RetainedVehicles(r)
  {
    hide ScheduleFrom;
    var free := WithoutTravel(r);
    assert WellFormed(free);
    forall o | 0 <= o < |r.orders|
      ensures ServesAlone(r, v, o) <==> CanServeWithZeroTravel(r.vehicles[v], r.orders[o])
    {
      ZeroTravelTestIsExact(free, v, o);
    }
  }

  lemma UsefulAreRetained(r: Request)
    requires WellFormed(r)
    ensures Elements(RetainedVehicles(r)) == UsefulSlots(r) && |RetainedVehicles(r)| == |UsefulSlots(r)|
    ensures forall v: nat :: v in RetainedVehicles(r) <==> IsUseful(r, v)
  {
    hide WellFormed, ServesAlone, CanServeSome;
    forall v: nat
      ensures v in RetainedVehicles(r) <==> IsUseful(r, v)
    {
      if v < |r.vehicles| {
        UsefulIffRetained(r, v);
      }
    }
    DistinctSize(RetainedVehicles(r));
  }

  lemma NeededAreRetained(r: Request)
    requires WellFormed(r)
    ensures Elements(RetainedDrivers(r)) == NeededDrivers(r) && |RetainedDrivers(r)| == |NeededDrivers(r)|
  {
    hide WellFormed, IsUseful;
    UsefulAreRetained(r);
    forall day: nat
      ensures IsRetainedDay(r, day) <==> exists v: nat :: IsUseful(r, v) && r.vehicles[v].vehicle.day == day
    {
      if v: nat :| IsUseful(r, v) && r.vehicles[v].vehicle.day == day {
        assert v in RetainedVehicles(r);
        var j :| 0 <= j < |RetainedVehicles(r)| && RetainedVehicles(r)[j] == v;
      }
      if IsRetainedDay(r, day) {
        var j :| 0 <= j < |RetainedVehicles(r)| && r.vehicles[RetainedVehicles(r)[j]].vehicle.day == day;
        assert RetainedVehicles(r)[j] in RetainedVehicles(r);
      }
    }
    DistinctSize(RetainedDrivers(r));
  }

  /** What pruning does, whatever the request: it removes exactly the useless slots and the
      drivers of days without a useful slot, unless there is nothing to remove, nothing
      useful, or too few drivers would be left. */
  lemma PruneRemovesExactly(r: Request)
    requires WellFormed(r)
    ensures var useful, needed, pruned := UsefulSlots(r), NeededDrivers(r), Prune(r);
            if |useful| == |r.vehicles| || useful == {} || |needed| < |useful| then pruned == (r, 0)
            else
              && pruned.1 == |r.vehicles| - |useful| > 0
              && IsSelection(r.vehicles, useful, pruned.0.vehicles)
              && IsSelection(r.drivers, needed, pruned.0.drivers)
              && pruned.0.orders == r.orders
  {
    hide WellFormed, UsefulSlots, NeededDrivers, RetainedVehicles, RetainedDrivers, IsSelection, Prune;
    UsefulAreRetained(r);
    NeededAreRetained(r);
    PruneUnfolds(r);
    if !KeepsRequest(r) {
      PickIsSelection(r.vehicles, RetainedVehicles(r));
      PickIsSelection(r.drivers, RetainedDrivers(r));
    }
  }

  lemma PruneUnfolds(r: Request)
    requires WellFormed(r)
    ensures |RetainedVehicles(r)| <= |r.vehicles| && Increasing(RetainedVehicles(r)) && Increasing(RetainedDrivers(r))
    ensures forall k | 0 <= k < |RetainedVehicles(r)| :: RetainedVehicles(r)[k] < |r.vehicles|
    ensures forall k | 0 <= k < |RetainedDrivers(r)| :: RetainedDrivers(r)[k] < |r.drivers|
    ensures KeepsRequest(r) ==> Prune(r) == (r, 0)
    ensures !KeepsRequest(r) ==>
              && Prune(r).0.vehicles == Pick(r.vehicles, RetainedVehicles(r))
              && Prune(r).0.drivers == Pick(r.drivers, RetainedDrivers(r))
              && Prune(r).0.orders == r.orders && Prune(r).1 == |r.vehicles| - |RetainedVehicles(r)|
  {
    hide WellFormed, KeepsRequest;
  }

  predicate Increasing(s: seq<nat>) {
    forall i, j | 0 <= i < j < |s| :: s[i] < s[j]
  }

  lemma PickIsSelection<T>(s: seq<T>, kept: seq<nat>)
    requires Increasing(kept) && forall k | 0 <= k < |kept| :: kept[k] < |s|
    ensures IsSelection(s, Elements(kept), Pick(s, kept))
  {
    assert Selects(s, Elements(kept), Pick(s, kept), kept);
  }

  // ---------- a retained slot does the same ----------

  lemma NodesCorrespond(r: Request, stop: RouteStop)
    requires WellFormed(r) && !KeepsRequest(r) && stop.order < |r.orders|
    ensures NodeOf(Prune(r).0, stop) < |RetainedNodes(r)|
    ensures RetainedNodes(r)[NodeOf(Prune(r).0, stop)] == NodeOf(r, stop)
  {
  }

  lemma DurationsCorrespond(r: Request, from: nat, to: nat)
    requires WellFormed(r) && !KeepsRequest(r)
    requires from < |RetainedNodes(r)| && to < |RetainedNodes(r)|
    ensures var p := Prune(r).0;
            && IsNode(p, from) && IsNode(p, to)
            && DurationOf(p, from, to) == DurationOf(r, RetainedNodes(r)[from], RetainedNodes(r)[to])
            && p.distance[from][to] == r.distance[RetainedNodes(r)[from]][RetainedNodes(r)[to]]
  {
  }

  lemma {:induction false} SameScheduleFrom(r: Request, v: nat, previous: nat, clock: int, sequence: nat,
      stops: seq<RouteStop>)
    requires WellFormed(r) && !KeepsRequest(r) && v < |RetainedVehicles(r)| && previous < |RetainedNodes(r)|
    ensures RetainedVehicles(r)[v] < |r.vehicles| && IsNode(r, RetainedNodes(r)[previous])
    ensures var p := Prune(r).0;
            ScheduleFrom(p, v, previous, clock, sequence, stops)
            == ScheduleFrom(r, RetainedVehicles(r)[v], RetainedNodes(r)[previous], clock, sequence, stops)
    decreases |stops|
  {
    hide Prune, KeepsRequest, ScheduleFrom, TimedAt, ReachedAt, WellFormed;
    var p, w, from := Prune(r).0, RetainedVehicles(r)[v], RetainedNodes(r)[previous];
    PrunedSlot(r, v);
    DurationsCorrespond(r, previous, v);
    if stops == [] {
      SameLast(p, v, previous, r, w, from, clock, sequence);
    } else if stops[0].order < |r.orders| {
      var node := NodeOf(p, stops[0]);
      NodesCorrespond(r, stops[0]);
      DurationsCorrespond(r, previous, node);
      var timed := TimedAt(p, previous, clock, sequence, stops[0]);
      SameScheduleFrom(r, v, node, timed.departure, sequence + 1, stops[1..]);
      SameNext(p, v, previous, r, w, from, clock, sequence, stops);
    } else {
      SameNext(p, v, previous, r, w, from, clock, sequence, stops);
    }
  }

  lemma PrunedSlot(r: Request, v: nat)
    requires WellFormed(r) && !KeepsRequest(r) && v < |RetainedVehicles(r)|
    ensures var p, w := Prune(r).0, RetainedVehicles(r)[v];
            && v < |p.vehicles| && w < |r.vehicles| && p.vehicles[v] == r.vehicles[w] && p.orders == r.orders
            && v < |RetainedNodes(r)| && RetainedNodes(r)[v] == w
  {
  }

  /** Two requests in which the next leg looks the same go on the same way. */
  lemma SameNext(p: Request, v: nat, previous: nat, r: Request, w: nat, from: nat, clock: int, sequence: nat,
      stops: seq<RouteStop>)
    requires WellFormed(p) && v < |p.vehicles| && IsNode(p, previous)
    requires WellFormed(r) && w < |r.vehicles| && IsNode(r, from)
    requires p.vehicles[v] == r.vehicles[w] && p.orders == r.orders && stops != []
    requires stops[0].order < |r.orders| ==>
               && DurationOf(p, previous, NodeOf(p, stops[0])) == DurationOf(r, from, NodeOf(r, stops[0]))
               && var departure := TimedAt(p, previous, clock, sequence, stops[0]).departure;
               ScheduleFrom(p, v, NodeOf(p, stops[0]), departure, sequence + 1, stops[1..])
               == ScheduleFrom(r, w, NodeOf(r, stops[0]), departure, sequence + 1, stops[1..])
    ensures ScheduleFrom(p, v, previous, clock, sequence, stops) == ScheduleFrom(r, w, from, clock, sequence, stops)
  {
    hide WellFormed, IsSquare, Round;
    PrependNothing(ScheduleFrom(p, v, previous, clock, sequence, stops));
    PrependNothing(ScheduleFrom(r, w, from, clock, sequence, stops));
    ScheduleNext(p, v, previous, clock, sequence, stops, []);
    ScheduleNext(r, w, from, clock, sequence, stops, []);
    assert stops[0].order < |r.orders| ==>
             TimedAt(p, previous, clock, sequence, stops[0]) == TimedAt(r, from, clock, sequence, stops[0]);
  }

  lemma SameLast(p: Request, v: nat, previous: nat, r: Request, w: nat, from: nat, clock: int, sequence: nat)
    requires WellFormed(p) && v < |p.vehicles| && IsNode(p, previous)
    requires WellFormed(r) && w < |r.vehicles| && IsNode(r, from)
    requires p.vehicles[v] == r.vehicles[w] && DurationOf(p, previous, v) == DurationOf(r, from, w)
    ensures ScheduleFrom(p, v, previous, clock, sequence, []) == ScheduleFrom(r, w, from, clock, sequence, [])
  {
  }

  /** Metres driven for the remaining stops and back; nothing can be said of an unknown order. */
  ghost function DistanceFrom(r: Request, v: nat, previous: nat, stops: seq<RouteStop>): Option<real>
    requires WellFormed(r) && v < |r.vehicles| && IsNode(r, previous)
    decreases |stops|
  {
    if stops == [] then Some(r.distance[previous][v])
    else if stops[0].order >= |r.orders| then None
    else
      var rest := DistanceFrom(r, v, NodeOf(r, stops[0]), stops[1..]);
      if rest.None? then None else Some(r.distance[previous][NodeOf(r, stops[0])] + rest.value)
  }

  ghost function DistanceOf(r: Request, v: nat, stops: seq<RouteStop>): Option<real>
    requires WellFormed(r) && v < |r.vehicles|
  {
    if stops == [] then Some(0.0) else DistanceFrom(r, v, v, stops)
  }

  lemma {:induction false} SameDistanceFrom(r: Request, v: nat, previous: nat, stops: seq<RouteStop>)
    requires WellFormed(r) && !KeepsRequest(r) && v < |RetainedVehicles(r)| && previous < |RetainedNodes(r)|
    ensures RetainedVehicles(r)[v] < |r.vehicles| && IsNode(r, RetainedNodes(r)[previous])
    ensures DistanceFrom(Prune(r).0, v, previous, stops)
            == DistanceFrom(r, RetainedVehicles(r)[v], RetainedNodes(r)[previous], stops)
    decreases |stops|
  {
    hide Prune, KeepsRequest, WellFormed;
    PrunedSlot(r, v);
    DurationsCorrespond(r, previous, v);
    if stops != [] && stops[0].order < |r.orders| {
      NodesCorrespond(r, stops[0]);
      DurationsCorrespond(r, previous, NodeOf(Prune(r).0, stops[0]));
      SameDistanceFrom(r, v, NodeOf(Prune(r).0, stops[0]), stops[1..]);
    }
  }

  /** On a retained slot every stop list keeps its schedule and its distance. */
  lemma RetainedSlotKeepsRoutes(r: Request, v: nat, stops: seq<RouteStop>)
    requires WellFormed(r) && !KeepsRequest(r) && v < |RetainedVehicles(r)|
    ensures RetainedVehicles(r)[v] < |r.vehicles|
    ensures ScheduleOf(Prune(r).0, v, stops) == ScheduleOf(r, RetainedVehicles(r)[v], stops)
    ensures DistanceOf(Prune(r).0, v, stops) == DistanceOf(r, RetainedVehicles(r)[v], stops)
  {
    hide Prune, KeepsRequest, ScheduleFrom, DistanceFrom;
    PrunedSlot(r, v);
    SameScheduleFrom(r, v, v, r.vehicles[RetainedVehicles(r)[v]].start, 1, stops);
    SameDistanceFrom(r, v, v, stops);
  }

  // ---------- whole plans ----------

  datatype Assignment = Assignment(slot: nat, driver: nat, stops: seq<RouteStop>)

  /** Distinct slots and drivers that fit each other, each with a route that can be
      scheduled and serves an order. */
  ghost predicate IsPlan(r: Request, plan: seq<Assignment>)
    requires WellFormed(r)
  {
    && (forall k | 0 <= k < |plan| :: IsRoute(r, plan[k]))
    && forall j, k | 0 <= j < k < |plan| :: plan[j].slot != plan[k].slot && plan[j].driver != plan[k].driver
  }

  ghost predicate IsRoute(r: Request, a: Assignment)
    requires WellFormed(r)
  {
    && a.slot < |r.vehicles| && a.driver < |r.drivers|
    && IsLegalPair(r.vehicles[a.slot].vehicle, r.drivers[a.driver])
    && ScheduleOf(r, a.slot, a.stops).Some?
    && exists o :: ServesOrder(a.stops, o)
  }

  /** The full request's name for a route of the reduced one. */
  ghost function Lift(r: Request, a: Assignment): Assignment
    requires a.slot < |RetainedVehicles(r)| && a.driver < |RetainedDrivers(r)|
  {
    Assignment(RetainedVehicles(r)[a.slot], RetainedDrivers(r)[a.driver], a.stops)
  }

  ghost predicate IsLifted(r: Request, plan: seq<Assignment>, lifted: seq<Assignment>) {
    && |plan| == |lifted|
    && forall k | 0 <= k < |plan| ::
         plan[k].slot < |RetainedVehicles(r)| && plan[k].driver < |RetainedDrivers(r)| && lifted[k] == Lift(r, plan[k])
  }

  lemma SameRoute(r: Request, a: Assignment)
    requires WellFormed(r) && !KeepsRequest(r)
    requires a.slot < |RetainedVehicles(r)| && a.driver < |RetainedDrivers(r)|
    ensures IsRoute(Prune(r).0, a) <==> IsRoute(r, Lift(r, a))
  {
    RetainedSlotKeepsRoutes(r, a.slot, a.stops);
    assert RetainedVehicles(r)[a.slot] in RetainedVehicles(r) && RetainedDrivers(r)[a.driver] in RetainedDrivers(r);
  }

  lemma LoweredRoute(r: Request, a: Assignment) returns (lowered: Assignment)
    requires WellFormed(r) && !KeepsRequest(r) && IsRoute(r, a)
    ensures lowered.slot < |RetainedVehicles(r)| && lowered.driver < |RetainedDrivers(r)| && Lift(r, lowered) == a
  {
    var o :| ServesOrder(a.stops, o);
    if a.slot !in RetainedVehicles(r) {
      RemovedSlotServesNothing(r, a.slot, a.stops, o);
    }
    var v :| 0 <= v < |RetainedVehicles(r)| && RetainedVehicles(r)[v] == a.slot;
    assert IsRetainedDay(r, r.drivers[a.driver].day);
    assert a.driver in RetainedDrivers(r);
    var d :| 0 <= d < |RetainedDrivers(r)| && RetainedDrivers(r)[d] == a.driver;
    lowered := Assignment(v, d, a.stops);
  }

  lemma {:induction false} LoweredRoutes(r: Request, routes: seq<Assignment>) returns (lowered: seq<Assignment>)
    requires WellFormed(r) && !KeepsRequest(r) && forall k | 0 <= k < |routes| :: IsRoute(r, routes[k])
    ensures IsLifted(r, lowered, routes)
  {
    hide WellFormed, IsRoute, KeepsRequest, Lift, RetainedVehicles, RetainedDrivers;
    if routes == [] {
      lowered := [];
    } else {
      var first := LoweredRoute(r, routes[0]);
      var rest := LoweredRoutes(r, routes[1..]);
      lowered := [first] + rest;
    }
  }

  /** The reduced request has the same plans: renaming slots and drivers turns its plans
      into plans of the full request, and every plan of the full request arises so. */
  lemma PruningKeepsPlans(r: Request, lifted: seq<Assignment>) returns (plan: seq<Assignment>)
    requires WellFormed(r) && !KeepsRequest(r) && IsPlan(r, lifted)
    ensures IsLifted(r, plan, lifted) && IsPlan(Prune(r).0, plan)
  {
    hide WellFormed, Prune, IsRoute, KeepsRequest;
    plan := LoweredRoutes(r, lifted);
    forall k | 0 <= k < |plan|
      ensures IsRoute(Prune(r).0, plan[k])
    {
      SameRoute(r, plan[k]);
    }
    forall j, k | 0 <= j < k < |plan|
      ensures plan[j].slot != plan[k].slot && plan[j].driver != plan[k].driver
    {
      assert lifted[j].slot != lifted[k].slot && lifted[j].driver != lifted[k].driver;
    }
  }

  lemma PruningAddsNoPlans(r: Request, plan: seq<Assignment>, lifted: seq<Assignment>)
    requires WellFormed(r) && !KeepsRequest(r) && IsPlan(Prune(r).0, plan)
    requires IsLifted(r, plan, lifted)
    ensures IsPlan(r, lifted)
  {
    hide WellFormed, Prune, IsRoute, KeepsRequest;
    forall k | 0 <= k < |lifted|
      ensures IsRoute(r, lifted[k])
    {
      SameRoute(r, plan[k]);
    }
    forall j, k | 0 <= j < k < |lifted|
      ensures lifted[j].slot != lifted[k].slot && lifted[j].driver != lifted[k].driver
    {
      assert plan[j].slot != plan[k].slot && plan[j].driver != plan[k].driver;
      DifferentlyNamed(RetainedVehicles(r), plan[j].slot, plan[k].slot);
      DifferentlyNamed(RetainedDrivers(r), plan[j].driver, plan[k].driver);
    }
  }

  lemma DifferentlyNamed(kept: seq<nat>, j: nat, k: nat)
    requires forall a, b | 0 <= a < b < |kept| :: kept[a] < kept[b]
    requires j < |kept| && k < |kept| && j != k
    ensures kept[j] != kept[k]
  {
  }
}
