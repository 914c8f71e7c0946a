/** Timing a route: travel, waiting and service with half-even rounding to whole seconds. */
module RouteSchedule {
  import opened Prelude
  import opened DriverMatching
  import opened RouteStops

  type Matrix = seq<seq<real>>

  datatype Order = Order(pickupStart: nat, pickupEnd: nat, deliveryStart: nat, deliveryEnd: nat, serviceTime: nat)

  /** A vehicle on one day, with its shift. */
  datatype Slot = Slot(vehicle: Vehicle, start: nat, end: nat)

  datatype Request = Request(vehicles: seq<Slot>, drivers: seq<Driver>, orders: seq<Order>, distance: Matrix,
      duration: Matrix)

  datatype TimedStop = TimedStop(stop: RouteStop, sequence: nat, arrival: int, departure: int, travel: int,
      waiting: int, service: nat)

  datatype Schedule = Schedule(stops: seq<TimedStop>, routeEnd: int, returnTravel: int)

  predicate IsSquare(m: Matrix, n: nat) {
    && |m| == n
    && (forall j | 0 <= j < n :: |m[j]| == n)
    && forall j, k | 0 <= j < n && 0 <= k < n :: m[j][k] >= 0.0
  }

  function NodeCount(r: Request): nat {
    |r.vehicles| + 2 * |r.orders|
  }

  /** What the public request contract demands. */
  predicate WellFormed(r: Request) {
    && r.vehicles != [] && r.drivers != [] && r.orders != []
    && (forall v | 0 <= v < |r.vehicles| :: r.vehicles[v].start < r.vehicles[v].end)
    && (forall o | 0 <= o < |r.orders| ::
          r.orders[o].pickupStart <= r.orders[o].pickupEnd && r.orders[o].deliveryStart <= r.orders[o].deliveryEnd)
    && IsSquare(r.distance, NodeCount(r)) && IsSquare(r.duration, NodeCount(r))
    && |r.vehicles| <= |r.drivers|
  }

  /** Nearest whole number, ties to the even one. */
  function Round(x: real): (n: int)
    ensures -0.5 <= n as real - x <= 0.5
  {
    var below := x.Floor;
    var part := x - below as real;
    if part < 0.5 then below
    else if part > 0.5 then below + 1
    else if below % 2 == 0 then below else below + 1
  }

  /** Rounding is to the one whole number that is nearest, and of two as near to the even one. */
  lemma RoundIsNearestEven(x: real, n: int)
    ensures n == Round(x) <==>
            -0.5 <= n as real - x <= 0.5 && (n as real - x == -0.5 || n as real - x == 0.5 ==> n % 2 == 0)
  {
    var below := x.Floor;
    assert below as real <= x < below as real + 1.0;
    if -0.5 <= n as real - x <= 0.5 {
      assert n == below || n == below + 1;
    }
  }

  /** Rounding never crosses a whole second. */
  lemma RoundKeepsSide(x: real, k: int)
    ensures x <= k as real ==> Round(x) <= k
    ensures k as real <= x ==> k <= Round(x)
  {
  }

  function NodeOf(r: Request, stop: RouteStop): nat {
    |r.vehicles| + 2 * stop.order + if stop.Pickup? then 0 else 1
  }

  function WindowStart(r: Request, stop: RouteStop): nat
    requires stop.order < |r.orders|
  {
    if stop.Pickup? then r.orders[stop.order].pickupStart else r.orders[stop.order].deliveryStart
  }

  function WindowEnd(r: Request, stop: RouteStop): nat
    requires stop.order < |r.orders|
  {
    if stop.Pickup? then r.orders[stop.order].pickupEnd else r.orders[stop.order].deliveryEnd
  }

  ghost predicate IsNode(r: Request, node: nat) {
    node < NodeCount(r)
  }

  function DurationOf(r: Request, from: nat, to: nat): (seconds: real)
    requires WellFormed(r) && IsNode(r, from) && IsNode(r, to)
    ensures seconds >= 0.0
  {
    r.duration[from][to]
  }

  /** The time of reaching the stop, leaving `previous` at `clock`. */
  function ReachedAt(r: Request, previous: nat, clock: int, stop: RouteStop): real
    requires WellFormed(r) && IsNode(r, previous) && stop.order < |r.orders|
  {
    var direct := clock as real + DurationOf(r, previous, NodeOf(r, stop));
    if direct > WindowStart(r, stop) as real then direct else WindowStart(r, stop) as real
  }

  function TimedAt(r: Request, previous: nat, clock: int, sequence: nat, stop: RouteStop): TimedStop
    requires WellFormed(r) && IsNode(r, previous) && stop.order < |r.orders|
  {
    var arrival := Round(ReachedAt(r, previous, clock, stop));
    var elapsed := Max(0, arrival - clock);
    var travel := Min(elapsed, Max(0, Round(DurationOf(r, previous, NodeOf(r, stop)))));
    var service := r.orders[stop.order].serviceTime;
    TimedStop(stop, sequence, arrival, arrival + service, travel, elapsed - travel, service)
  }

  /** The schedule of the remaining stops. */
  ghost function ScheduleFrom(r: Request, v: nat, previous: nat, clock: int, sequence: nat,
      stops: seq<RouteStop>): Option<Schedule>
    requires WellFormed(r) && v < |r.vehicles| && IsNode(r, previous)
    decreases |stops|
  {
    var slot := r.vehicles[v];
    if stops == [] then
      var back := Round(DurationOf(r, previous, v));
      if clock + back > slot.end then None else Some(Schedule([], clock + back, back))
    else if stops[0].order >= |r.orders| then None
    else
      var reached := ReachedAt(r, previous, clock, stops[0]);
      var timed := TimedAt(r, previous, clock, sequence, stops[0]);
      if reached > WindowEnd(r, stops[0]) as real || reached > slot.end as real || timed.departure > slot.end then None
      else Prepend([timed], ScheduleFrom(r, v, NodeOf(r, stops[0]), timed.departure, sequence + 1, stops[1..]))
  }

  ghost function Prepend(first: seq<TimedStop>, rest: Option<Schedule>): Option<Schedule> {
    if rest.None? then None else Some(rest.value.(stops := first + rest.value.stops))
  }

  ghost function ScheduleOf(r: Request, v: nat, stops: seq<RouteStop>): Option<Schedule>
    requires WellFormed(r) && v < |r.vehicles|
  {
    ScheduleFrom(r, v, v, r.vehicles[v].start, 1, stops)
  }

  /** One pass over the stops, enforcing every window and the shift. */
  method ScheduleStops(r: Request, v: nat, stops: seq<RouteStop>) returns (schedule: Option<Schedule>)
    requires WellFormed(r) && v < |r.vehicles|
    ensures schedule == ScheduleOf(r, v, stops)
  {
    hide ScheduleFrom, Prepend, Round, IsSquare;
    var slot := r.vehicles[v];
    var clock: real := slot.start as real;
    var previous := v;
    var scheduled: seq<TimedStop> := [];
    ghost var seconds: int := slot.start;
    PrependNothing(ScheduleOf(r, v, stops));
    assert stops[0..] == stops;
    for k := 0 to |stops|
      invariant IsNode(r, previous) && clock == seconds as real && |scheduled| == k
      invariant ScheduleOf(r, v, stops) == Prepend(scheduled, ScheduleFrom(r, v, previous, seconds, k + 1, stops[k..]))
    {
      ScheduleNext(r, v, previous, seconds, k + 1, stops[k..], scheduled);
      assert stops[k..][0] == stops[k] && stops[k..][1..] == stops[k + 1..];
      var stop := stops[k];
      if stop.order >= |r.orders| {
        return None;
      }
      var node := NodeOf(r, stop);
      var order := r.orders[stop.order];
      var travelTime := DurationOf(r, previous, node);
      var legStart := clock;
      clock := clock + travelTime;
      if clock < WindowStart(r, stop) as real {
        clock := WindowStart(r, stop) as real;
      }
      if clock > WindowEnd(r, stop) as real || clock > slot.end as real {
        return None;
      }
      var arrival := Round(clock);
      RoundWhole(legStart, seconds);
      var elapsed := Max(0, arrival - Round(legStart));
      var travel := Min(elapsed, Max(0, Round(travelTime)));
      var departure := arrival + order.serviceTime;
      if departure > slot.end {
        return None;
      }
      var timed := TimedStop(stop, k + 1, arrival, departure, travel, elapsed - travel, order.serviceTime);
      scheduled := scheduled + [timed];
      clock := departure as real;
      seconds := departure;
      previous := node;
    }
    ScheduleLast(r, v, previous, seconds, |stops| + 1, stops[|stops|..], scheduled);
    RoundWhole(clock, seconds);
    var back := Round(DurationOf(r, previous, v));
    var routeEnd := Round(clock) + back;
    if routeEnd > slot.end {
      return None;
    }
    return Some(Schedule(scheduled, routeEnd, back));
  }

  lemma ScheduleNext(r: Request, v: nat, previous: nat, clock: int, sequence: nat, stops: seq<RouteStop>,
      before: seq<TimedStop>)
    requires WellFormed(r) && v < |r.vehicles| && IsNode(r, previous) && stops != []
    ensures Prepend(before, ScheduleFrom(r, v, previous, clock, sequence, stops)) ==
            if stops[0].order >= |r.orders| then None
            else
              var reached := ReachedAt(r, previous, clock, stops[0]);
              var timed := TimedAt(r, previous, clock, sequence, stops[0]);
              var node, end := NodeOf(r, stops[0]), r.vehicles[v].end;
              if reached > WindowEnd(r, stops[0]) as real || reached > end as real || timed.departure > end then None
              else Prepend(before + [timed], ScheduleFrom(r, v, node, timed.departure, sequence + 1, stops[1..]))
  {
    if stops[0].order < |r.orders| {
      var timed := TimedAt(r, previous, clock, sequence, stops[0]);
      PrependMore(before, timed, ScheduleFrom(r, v, NodeOf(r, stops[0]), timed.departure, sequence + 1, stops[1..]));
    }
  }

  lemma ScheduleLast(r: Request, v: nat, previous: nat, clock: int, sequence: nat, stops: seq<RouteStop>,
      before: seq<TimedStop>)
    requires WellFormed(r) && v < |r.vehicles| && IsNode(r, previous) && stops == []
    ensures Prepend(before, ScheduleFrom(r, v, previous, clock, sequence, stops)) ==
            var back := Round(DurationOf(r, previous, v));
            if clock + back > r.vehicles[v].end then None else Some(Schedule(before, clock + back, back))
  {
    assert before + [] == before;
  }

  lemma RoundWhole(x: real, k: int)
    requires x == k as real
    ensures Round(x) == k
  {
  }

  lemma PrependNothing(s: Option<Schedule>)
    ensures Prepend([], s) == s
  {
    assert s.Some? ==> [] + s.value.stops == s.value.stops;
  }

  lemma PrependMore(first: seq<TimedStop>, t: TimedStop, rest: Option<Schedule>)
    ensures Prepend(first, Prepend([t], rest)) == Prepend(first + [t], rest)
  {
    assert rest.Some? ==> first + ([t] + rest.value.stops) == first + [t] + rest.value.stops;
  }

  // ---------- what a schedule promises ----------

  /** The stop keeps its window and the shift, and its leg adds up: travel is the matrix
      duration to the nearest half second, the rest is waiting, and there is no more than
      a second of it unless the window had to open first. */
  ghost predicate Timely(r: Request, v: nat, previous: nat, clock: int, t: TimedStop)
    requires WellFormed(r) && v < |r.vehicles| && IsNode(r, previous) && t.stop.order < |r.orders|
  {
    && WindowStart(r, t.stop) <= t.arrival <= WindowEnd(r, t.stop)
    && t.service == r.orders[t.stop.order].serviceTime
    && t.departure == t.arrival + t.service <= r.vehicles[v].end
    && t.travel >= 0 && t.waiting >= 0 && t.arrival - clock == t.travel + t.waiting
    && (match t.stop
        case Pickup(o) => -0.5 <= t.travel as real - r.duration[previous][|r.vehicles| + 2 * o] <= 0.5
        case Delivery(o) => -0.5 <= t.travel as real - r.duration[previous][|r.vehicles| + 2 * o + 1] <= 0.5)
    && (t.waiting <= 1 || t.arrival == WindowStart(r, t.stop))
  }

  lemma LegIsTimely(r: Request, v: nat, previous: nat, clock: int, sequence: nat, stop: RouteStop)
    requires WellFormed(r) && v < |r.vehicles| && IsNode(r, previous) && stop.order < |r.orders|
    requires ReachedAt(r, previous, clock, stop) <= WindowEnd(r, stop) as real
    requires TimedAt(r, previous, clock, sequence, stop).departure <= r.vehicles[v].end
    ensures Timely(r, v, previous, clock, TimedAt(r, previous, clock, sequence, stop))
  {
    var travelTime := DurationOf(r, previous, NodeOf(r, stop));
    var reached := ReachedAt(r, previous, clock, stop);
    assert travelTime >= 0.0;
    assert WindowStart(r, stop) as real <= reached <= WindowEnd(r, stop) as real;
    assert clock as real + travelTime <= reached;
    RoundKeepsSide(reached, WindowStart(r, stop));
    RoundKeepsSide(reached, WindowEnd(r, stop));
    RoundKeepsSide(reached, clock);
    RoundKeepsSide(travelTime, 0);
  }

  /** Stop by stop, every leg of a schedule is timely and the return leg closes the shift. */
  ghost predicate IsTimeline(r: Request, v: nat, previous: nat, clock: int, sequence: nat, stops: seq<RouteStop>,
      s: Schedule)
    requires WellFormed(r) && v < |r.vehicles| && IsNode(r, previous)
    decreases |stops|
  {
    if stops == [] then
      && s.stops == [] && s.routeEnd == clock + s.returnTravel <= r.vehicles[v].end
      && s.returnTravel >= 0 && -0.5 <= s.returnTravel as real - DurationOf(r, previous, v) <= 0.5
    else
      && s.stops != [] && s.stops[0].stop == stops[0] && stops[0].order < |r.orders|
      && s.stops[0].sequence == sequence
      && Timely(r, v, previous, clock, s.stops[0])
      && IsTimeline(r, v, NodeOf(r, stops[0]), s.stops[0].departure, sequence + 1, stops[1..],
          s.(stops := s.stops[1..]))
  }

  lemma {:induction false} SchedulesAreTimelines(r: Request, v: nat, previous: nat, clock: int, sequence: nat,
      stops: seq<RouteStop>)
    requires WellFormed(r) && v < |r.vehicles| && IsNode(r, previous)
    requires ScheduleFrom(r, v, previous, clock, sequence, stops).Some?
    ensures IsTimeline(r, v, previous, clock, sequence, stops,
              ScheduleFrom(r, v, previous, clock, sequence, stops).value)
    decreases |stops|
  {
    if stops == [] {
      assert DurationOf(r, previous, v) >= 0.0;
      RoundKeepsSide(DurationOf(r, previous, v), 0);
    } else {
      LegIsTimely(r, v, previous, clock, sequence, stops[0]);
      var timed := TimedAt(r, previous, clock, sequence, stops[0]);
      SchedulesAreTimelines(r, v, NodeOf(r, stops[0]), timed.departure, sequence + 1, stops[1..]);
      var rest := ScheduleFrom(r, v, NodeOf(r, stops[0]), timed.departure, sequence + 1, stops[1..]).value;
      var s := ScheduleFrom(r, v, previous, clock, sequence, stops).value;
      assert s.stops[1..] == rest.stops;
      assert s.(stops := s.stops[1..]) == rest;
    }
  }

  function Visited(stops: seq<TimedStop>): (visited: seq<RouteStop>)
    ensures |visited| == |stops|
  {
    seq(|stops|, k requires 0 <= k < |stops| => stops[k].stop)
  }

  lemma {:induction false} TimelineVisits(r: Request, v: nat, previous: nat, clock: int, sequence: nat,
      stops: seq<RouteStop>, s: Schedule)
    requires WellFormed(r) && v < |r.vehicles| && IsNode(r, previous)
    requires IsTimeline(r, v, previous, clock, sequence, stops, s)
    ensures Visited(s.stops) == stops
    decreases |stops|
  {
    if stops == [] {
    } else {
      var rest := s.(stops := s.stops[1..]);
      TimelineVisits(r, v, NodeOf(r, stops[0]), s.stops[0].departure, sequence + 1, stops[1..], rest);
      assert Visited(s.stops)[1..] == Visited(rest.stops);
    }
  }

  /** Each stop is reached within its window and left after the order's service time. */
  ghost predicate MeetsWindows(r: Request, stops: seq<TimedStop>) {
    forall k | 0 <= k < |stops| :: MeetsWindow(r, stops[k])
  }

  ghost predicate MeetsWindow(r: Request, t: TimedStop) {
    && t.stop.order < |r.orders|
    && (match t.stop
        case Pickup(o) => r.orders[o].pickupStart <= t.arrival <= r.orders[o].pickupEnd
        case Delivery(o) => r.orders[o].deliveryStart <= t.arrival <= r.orders[o].deliveryEnd)
    && t.departure == t.arrival + r.orders[t.stop.order].serviceTime
  }

  lemma {:induction false} TimelineMeetsWindows(r: Request, v: nat, previous: nat, clock: int, sequence: nat,
                                                stops: seq<RouteStop>, s: Schedule)
    requires WellFormed(r) && v < |r.vehicles| && IsNode(r, previous)
    requires IsTimeline(r, v, previous, clock, sequence, stops, s)
    ensures MeetsWindows(r, s.stops)
    decreases |stops|
  {
    if stops == [] {
    } else {
      var rest := s.(stops := s.stops[1..]);
      TimelineMeetsWindows(r, v, NodeOf(r, stops[0]), s.stops[0].departure, sequence + 1, stops[1..], rest);
      assert s.stops == [s.stops[0]] + rest.stops;
    }
  }

  // ---------- nothing feasible is missed ----------

  /** Whole-second arrivals that respect travel without rounding, the windows and the shift. */
  ghost predicate CanArrive(r: Request, v: nat, previous: nat, clock: int, stops: seq<RouteStop>, arrivals: seq<int>)
    requires WellFormed(r) && v < |r.vehicles| && IsNode(r, previous)
    decreases |stops|
  {
    && |arrivals| == |stops|
    && if stops == [] then clock as real + DurationOf(r, previous, v) <= r.vehicles[v].end as real
       else
         && stops[0].order < |r.orders|
         && clock as real + DurationOf(r, previous, NodeOf(r, stops[0])) <= arrivals[0] as real
         && WindowStart(r, stops[0]) <= arrivals[0] <= WindowEnd(r, stops[0])
         && CanArrive(r, v, NodeOf(r, stops[0]), arrivals[0] + r.orders[stops[0].order].serviceTime, stops[1..],
             arrivals[1..])
  }

  lemma {:induction false} ArrivalsFitShift(r: Request, v: nat, previous: nat, clock: int, stops: seq<RouteStop>,
      arrivals: seq<int>)
    requires WellFormed(r) && v < |r.vehicles| && IsNode(r, previous)
    requires CanArrive(r, v, previous, clock, stops, arrivals)
    ensures clock <= r.vehicles[v].end
    decreases |stops|
  {
    if stops != [] {
      ArrivalsFitShift(r, v, NodeOf(r, stops[0]), arrivals[0] + r.orders[stops[0].order].serviceTime, stops[1..],
          arrivals[1..]);
      assert DurationOf(r, previous, NodeOf(r, stops[0])) >= 0.0;
    } else {
      assert DurationOf(r, previous, v) >= 0.0;
    }
  }

  /** The schedule is the earliest one: whenever any timetable exists, from this time or
      later, there is a schedule, and it reaches every stop no later. */
  lemma {:induction false} ScheduleIsEarliest(r: Request, v: nat, previous: nat, clock: int, later: int, sequence: nat,
                                              stops: seq<RouteStop>, arrivals: seq<int>)
    requires WellFormed(r) && v < |r.vehicles| && IsNode(r, previous) && clock <= later
    requires CanArrive(r, v, previous, later, stops, arrivals)
    ensures var s := ScheduleFrom(r, v, previous, clock, sequence, stops);
            && s.Some? && |s.value.stops| == |arrivals|
            && forall k | 0 <= k < |arrivals| :: s.value.stops[k].arrival <= arrivals[k]
    decreases |stops|
  {
    if stops == [] {
      RoundKeepsSide(DurationOf(r, previous, v), r.vehicles[v].end - later);
    } else {
      var node, service := NodeOf(r, stops[0]), r.orders[stops[0].order].serviceTime;
      var reached := ReachedAt(r, previous, clock, stops[0]);
      RoundKeepsSide(reached, arrivals[0]);
      var timed := TimedAt(r, previous, clock, sequence, stops[0]);
      assert timed.arrival <= arrivals[0];
      ArrivalsFitShift(r, v, node, arrivals[0] + service, stops[1..], arrivals[1..]);
      ScheduleIsEarliest(r, v, node, timed.departure, arrivals[0] + service, sequence + 1, stops[1..], arrivals[1..]);
    }
  }

  // ---------- the emitted route ----------

  datatype EmittedRoute = EmittedRoute(slot: nat, start: int, end: int, stops: seq<TimedStop>, returnTravel: int,
      returnWaiting: int)

  /** The time checks of the final acceptance of a plan. */
  ghost predicate TimesAddUp(route: EmittedRoute) {
    && LegsAddUp(route.start, route.stops)
    && route.end - LastDeparture(route.start, route.stops) == route.returnTravel + route.returnWaiting
  }

  ghost predicate LegAddsUp(before: int, t: TimedStop) {
    t.arrival - before == t.travel + t.waiting && t.departure - t.arrival == t.service
  }

  ghost predicate LegsAddUp(before: int, stops: seq<TimedStop>)
    decreases |stops|
  {
    stops == [] || (LegAddsUp(before, stops[0]) && LegsAddUp(stops[0].departure, stops[1..]))
  }

  ghost function LastDeparture(start: int, stops: seq<TimedStop>): int {
    if stops == [] then start else stops[|stops| - 1].departure
  }

  method CheckTimes(route: EmittedRoute) returns (ok: bool)
    ensures ok <==> TimesAddUp(route)
  {
    var previous := route.start;
    assert route.stops[0..] == route.stops;
    for k := 0 to |route.stops|
      invariant LegsAddUp(route.start, route.stops) <==> LegsAddUp(previous, route.stops[k..])
      invariant LastDeparture(route.start, route.stops) == LastDeparture(previous, route.stops[k..])
    {
      var t := route.stops[k];
      assert route.stops[k..][1..] == route.stops[k + 1..];
      if t.arrival - previous != t.travel + t.waiting || t.departure - t.arrival != t.service {
        return false;
      }
      previous := t.departure;
    }
    assert route.stops[|route.stops|..] == [];
    return route.end - previous == route.returnTravel + route.returnWaiting;
  }

  function TimeSpent(stops: seq<TimedStop>): int {
    if stops == [] then 0 else stops[0].travel + stops[0].waiting + stops[0].service + TimeSpent(stops[1..])
  }

  lemma {:induction false} TimelineAddsUp(r: Request, v: nat, previous: nat, clock: int, sequence: nat,
      stops: seq<RouteStop>, s: Schedule)
    requires WellFormed(r) && v < |r.vehicles| && IsNode(r, previous)
    requires IsTimeline(r, v, previous, clock, sequence, stops, s)
    ensures |s.stops| == |stops| && LegsAddUp(clock, s.stops)
    ensures s.routeEnd == LastDeparture(clock, s.stops) + s.returnTravel <= r.vehicles[v].end
    ensures s.routeEnd - clock == TimeSpent(s.stops) + s.returnTravel
    decreases |stops|
  {
    if stops == [] {
    } else {
      var t, rest := s.stops[0], s.(stops := s.stops[1..]);
      TimelineAddsUp(r, v, NodeOf(r, stops[0]), t.departure, sequence + 1, stops[1..], rest);
    }
  }

  /** The stops but for the waiting at the first one. */
  function Departing(stops: seq<TimedStop>): seq<TimedStop> {
    if stops == [] then [] else [stops[0].(waiting := 0)] + stops[1..]
  }

  /** The route leaves just in time for its first stop, whose waiting moves to the depot. */
  function JustInTime(v: nat, shiftStart: nat, s: Schedule): EmittedRoute
    requires s.stops != []
  {
    var first := s.stops[0];
    var start := Max(shiftStart, first.arrival - first.travel);
    var firstWaiting := Max(0, first.arrival - start - first.travel);
    var stops := if firstWaiting != first.waiting then [first.(waiting := firstWaiting)] + s.stops[1..] else s.stops;
    EmittedRoute(v, start, s.routeEnd, stops, s.returnTravel, 0)
  }

  /** The reported route keeps the shift, passes the time checks, does not wait before its
      first stop, and its length is exactly the time it accounts for. */
  lemma EmittedRouteAddsUp(r: Request, v: nat, stops: seq<RouteStop>)
    requires WellFormed(r) && v < |r.vehicles| && stops != [] && ScheduleOf(r, v, stops).Some?
    ensures var s := ScheduleOf(r, v, stops).value;
            && |s.stops| == |stops|
            && var route := JustInTime(v, r.vehicles[v].start, s);
            && TimesAddUp(route)
            && r.vehicles[v].start <= route.start && route.end <= r.vehicles[v].end
            && |route.stops| == |stops| && route.stops[0].waiting == 0
            && route.end - route.start == TimeSpent(route.stops) + route.returnTravel
            && Departing(route.stops) == Departing(s.stops)
            && Visited(route.stops) == stops && MeetsWindows(r, route.stops)
  {
    hide ScheduleFrom, WellFormed;
    var s, start := ScheduleOf(r, v, stops).value, r.vehicles[v].start;
    assert IsNode(r, v);
    SchedulesAreTimelines(r, v, v, start, 1, stops);
    TimelineAddsUp(r, v, v, start, 1, stops, s);
    TimelineVisits(r, v, v, start, 1, stops, s);
    TimelineMeetsWindows(r, v, v, start, 1, stops, s);
    assert LegAddsUp(start, s.stops[0]);
    var route := JustInTime(v, start, s);
    assert MeetsWindow(r, s.stops[0]);
    assert route.stops[1..] == s.stops[1..];
  }

  method EmitRoute(r: Request, v: nat, stops: seq<RouteStop>) returns (route: Option<EmittedRoute>)
    requires WellFormed(r) && v < |r.vehicles| && stops != []
    ensures route.Some? <==> ScheduleOf(r, v, stops).Some?
    ensures route.Some? ==>
              && TimesAddUp(route.value)
              && r.vehicles[v].start <= route.value.start && route.value.end <= r.vehicles[v].end
              && Departing(route.value.stops) == Departing(ScheduleOf(r, v, stops).value.stops)
              && Visited(route.value.stops) == stops && route.value.slot == v
              && MeetsWindows(r, route.value.stops)
  {
    hide ScheduleFrom, WellFormed;
    var schedule := ScheduleStops(r, v, stops);
    if schedule.None? {
      return None;
    }
    EmittedRouteAddsUp(r, v, stops);
    return Some(JustInTime(v, r.vehicles[v].start, schedule.value));
  }
}
