/** Orders are neither lost nor duplicated when routes are edited. */
module OrderConservation {
  import opened RouteStops
  import PrecedenceSequences

  type Route = seq<RouteStop>

  /** The stops of one order, in route order. */
  function OnlyOrder(stops: Route, o: nat): Route {
    if stops == [] then []
    else (if stops[0].order == o then [stops[0]] else []) + OnlyOrder(stops[1..], o)
  }

  function OrdersOf(stops: Route): set<nat> {
    set s | s in stops :: s.order
  }

  /** The order is on exactly one route, as one pickup before one delivery. */
  ghost predicate PlacedOnce(routes: seq<Route>, o: nat) {
    exists v :: 0 <= v < |routes| && PlacedOn(routes, o, v)
  }

  ghost predicate PlacedOn(routes: seq<Route>, o: nat, v: nat) {
    && v < |routes| && OnlyOrder(routes[v], o) == [Pickup(o), Delivery(o)]
    && forall w | 0 <= w < |routes| && w != v :: OnlyOrder(routes[w], o) == []
  }

  ghost predicate Absent(routes: seq<Route>, o: nat) {
    forall v | 0 <= v < |routes| :: OnlyOrder(routes[v], o) == []
  }

  /** Each of the `n` orders is either left out or placed once; nothing else is on a route. */
  ghost predicate Conserves(n: nat, routes: seq<Route>, out: set<nat>) {
    forall o: nat :: Accounted(n, routes, out, o)
  }

  ghost predicate Accounted(n: nat, routes: seq<Route>, out: set<nat>, o: nat) {
    if o >= n then o !in out && Absent(routes, o)
    else if o in out then Absent(routes, o)
    else PlacedOnce(routes, o)
  }

  lemma {:induction false} OnlyOrderJoin(a: Route, b: Route, o: nat)
    ensures OnlyOrder(a + b, o) == OnlyOrder(a, o) + OnlyOrder(b, o)
  {
    if a == [] {
      assert a + b == b;
    } else {
      OnlyOrderJoin(a[1..], b, o);
      assert (a + b)[1..] == a[1..] + b;
    }
  }

  lemma {:induction false} MentionedIffOnRoute(stops: Route, o: nat)
    ensures OnlyOrder(stops, o) != [] <==> o in OrdersOf(stops)
  {
    if stops == [] {
    } else {
      MentionedIffOnRoute(stops[1..], o);
      assert stops == [stops[0]] + stops[1..];
      if o in OrdersOf(stops) && stops[0].order != o {
        var s :| s in stops && s.order == o;
        assert s in stops[1..];
      }
      if o in OrdersOf(stops[1..]) {
        var s :| s in stops[1..] && s.order == o;
        assert s in stops;
      }
      if stops[0].order == o {
        assert stops[0] in stops;
      }
    }
  }

  // ---------- one route ----------

  function Inserted(stops: Route, o: nat, p: nat, d: nat): Route
    requires p < d <= |stops| + 1
  {
    stops[..p] + [Pickup(o)] + stops[p..d - 1] + [Delivery(o)] + stops[d - 1..]
  }

  /** The pickup and the delivery stand at the places asked for, and the other stops keep
      their order around them. */
  lemma InsertedPlaces(stops: Route, o: nat, p: nat, d: nat)
    requires p < d <= |stops| + 1
    ensures var inserted := Inserted(stops, o, p, d);
            && |inserted| == |stops| + 2 && inserted[p] == Pickup(o) && inserted[d] == Delivery(o)
            && inserted[..p] + inserted[p + 1..d] + inserted[d + 1..] == stops
  {
    var inserted := Inserted(stops, o, p, d);
    assert inserted[..p] == stops[..p] && inserted[p + 1..d] == stops[p..d - 1] && inserted[d + 1..] == stops[d - 1..];
  }

  lemma InsertedOnly(stops: Route, o: nat, p: nat, d: nat, x: nat)
    requires p < d <= |stops| + 1 && OnlyOrder(stops, o) == []
    ensures OnlyOrder(Inserted(stops, o, p, d), x) == if x == o then [Pickup(o), Delivery(o)] else OnlyOrder(stops, x)
  {
    hide OnlyOrder;
    var a, b, c := stops[..p], stops[p..d - 1], stops[d - 1..];
    assert stops == a + b + c;
    OnlyOrderJoin(a + b, c, x);
    OnlyOrderJoin(a, b, x);
    OnlyOrderJoin(a + [Pickup(o)] + b + [Delivery(o)], c, x);
    OnlyOrderJoin(a + [Pickup(o)] + b, [Delivery(o)], x);
    OnlyOrderJoin(a + [Pickup(o)], b, x);
    OnlyOrderJoin(a, [Pickup(o)], x);
    OneStop(Pickup(o), x);
    OneStop(Delivery(o), x);
  }

  lemma OneStop(s: RouteStop, x: nat)
    ensures OnlyOrder([s], x) == if x == s.order then [s] else []
  {
  }

  function WithoutOrders(stops: Route, gone: set<nat>): (kept: Route)
    ensures forall s :: s in kept ==> s in stops
  {
    if stops == [] then []
    else (if stops[0].order in gone then [] else [stops[0]]) + WithoutOrders(stops[1..], gone)
  }

  lemma {:induction false} WithoutOnly(stops: Route, gone: set<nat>, x: nat)
    ensures OnlyOrder(WithoutOrders(stops, gone), x) == if x in gone then [] else OnlyOrder(stops, x)
  {
    if stops == [] {
    } else {
      WithoutOnly(stops[1..], gone, x);
      if stops[0].order !in gone {
        OnlyOrderJoin([stops[0]], WithoutOrders(stops[1..], gone), x);
        assert OnlyOrder([stops[0]], x) == if stops[0].order == x then [stops[0]] else [];
      } else {
        assert WithoutOrders(stops, gone) == WithoutOrders(stops[1..], gone);
      }
    }
  }

  lemma {:induction false} WithoutItsOrders(stops: Route, gone: set<nat>)
    requires OrdersOf(stops) <= gone
    ensures WithoutOrders(stops, gone) == []
  {
    if stops == [] {
    } else {
      assert stops == [stops[0]] + stops[1..];
      assert stops[0].order in OrdersOf(stops) && OrdersOf(stops[1..]) <= OrdersOf(stops);
      WithoutItsOrders(stops[1..], gone);
    }
  }

  lemma {:induction false} WithoutOtherOrders(stops: Route, gone: set<nat>)
    requires OrdersOf(stops) !! gone
    ensures WithoutOrders(stops, gone) == stops
  {
    if stops == [] {
    } else {
      assert stops == [stops[0]] + stops[1..];
      assert stops[0].order in OrdersOf(stops) && OrdersOf(stops[1..]) <= OrdersOf(stops);
      WithoutOtherOrders(stops[1..], gone);
    }
  }

  lemma {:induction false} CountInOnly(stops: Route, s: RouteStop)
    ensures multiset(stops)[s] == multiset(OnlyOrder(stops, s.order))[s]
  {
    if stops == [] {
    } else {
      var o, rest := s.order, stops[1..];
      CountInOnly(rest, s);
      assert stops == [stops[0]] + rest;
      assert multiset(stops) == multiset{stops[0]} + multiset(rest);
      if stops[0].order == o {
        assert multiset(OnlyOrder(stops, o)) == multiset{stops[0]} + multiset(OnlyOrder(rest, o));
      } else {
        assert OnlyOrder(stops, o) == OnlyOrder(rest, o);
      }
    }
  }

  lemma {:induction false} OrderWithin(stops: Route, j: nat, k: nat)
    requires j < k < |stops| && stops[j].order == stops[k].order
    ensures var o := stops[j].order;
            exists a, b :: 0 <= a < b < |OnlyOrder(stops, o)| && OnlyOrder(stops, o)[a] == stops[j]
                && OnlyOrder(stops, o)[b] == stops[k]
  {
    var o := stops[j].order;
    var a, b := stops[..k], stops[k..];
    assert stops == a + b;
    OnlyOrderJoin(a, b, o);
    assert OnlyOrder(b, o)[0] == stops[k];
    assert stops[j] in multiset(a) by { assert a[j] in a; }
    CountInOnly(a, stops[j]);
    assert stops[j] in OnlyOrder(a, o);
    var i :| 0 <= i < |OnlyOrder(a, o)| && OnlyOrder(a, o)[i] == stops[j];
    assert OnlyOrder(stops, o)[i] == stops[j] && OnlyOrder(stops, o)[|OnlyOrder(a, o)|] == stops[k];
  }

  /** Read stop by stop: a conserving route can be driven as it stands, picking each of its
      orders up once and later delivering it once. */
  lemma RouteServesEachOnce(n: nat, routes: seq<Route>, out: set<nat>, v: nat)
    requires Conserves(n, routes, out) && v < |routes|
    ensures PrecedenceSequences.ServesEachOnce(routes[v], {}, OrdersOf(routes[v]))
  {
    var stops := routes[v];
    forall o: nat
      ensures OnlyOrder(stops, o) == if o in OrdersOf(stops) then [Pickup(o), Delivery(o)] else []
    {
      assert Accounted(n, routes, out, o);
      MentionedIffOnRoute(stops, o);
    }
    forall o: nat
      ensures multiset(stops)[Pickup(o)] == if o in OrdersOf(stops) then 1 else 0
      ensures multiset(stops)[Delivery(o)] == if o in OrdersOf(stops) then 1 else 0
    {
      CountInOnly(stops, Pickup(o));
      CountInOnly(stops, Delivery(o));
    }
    forall j, k | 0 <= j < |stops| && 0 <= k < |stops| && stops[j].Pickup? && stops[k] == Delivery(stops[j].order)
      ensures j < k
    {
      assert stops[j] in stops;
      assert stops[j].order in OrdersOf(stops);
      if k < j {
        OrderWithin(stops, k, j);
      }
    }
  }

  // ---------- all routes ----------

  lemma InsertConserves(n: nat, routes: seq<Route>, out: set<nat>, o: nat, v: nat, p: nat, d: nat)
    requires Conserves(n, routes, out) && o in out && v < |routes| && p < d <= |routes[v]| + 1
    ensures Conserves(n, routes[v := Inserted(routes[v], o, p, d)], out - {o})
  {
    hide OnlyOrder, Inserted;
    var routes' := routes[v := Inserted(routes[v], o, p, d)];
    assert Accounted(n, routes, out, o);
    forall x: nat
      ensures Accounted(n, routes', out - {o}, x)
    {
      assert Accounted(n, routes, out, x);
      InsertedOnly(routes[v], o, p, d, x);
      if x == o {
        assert PlacedOn(routes', o, v);
      } else {
        SameStopsSameAccount(n, routes, routes', out, out - {o}, x);
      }
    }
  }

  lemma SameStopsSameAccount(n: nat, routes: seq<Route>, routes': seq<Route>, out: set<nat>, out': set<nat>, x: nat)
    requires Accounted(n, routes, out, x) && |routes| == |routes'| && (x in out <==> x in out')
    requires forall v | 0 <= v < |routes| :: OnlyOrder(routes'[v], x) == OnlyOrder(routes[v], x)
    ensures Accounted(n, routes', out', x)
  {
    if x < n && x !in out {
      var v :| 0 <= v < |routes| && PlacedOn(routes, x, v);
      assert PlacedOn(routes', x, v);
    }
  }

  lemma RemoveConserves(n: nat, routes: seq<Route>, out: set<nat>, gone: set<nat>, routes': seq<Route>)
    requires Conserves(n, routes, out) && |routes'| == |routes|
    requires forall v | 0 <= v < |routes| :: routes'[v] == WithoutOrders(routes[v], gone)
    requires forall o | o in gone :: o < n
    ensures Conserves(n, routes', out + gone)
  {
    hide OnlyOrder, WithoutOrders;
    forall x: nat
      ensures Accounted(n, routes', out + gone, x)
    {
      assert Accounted(n, routes, out, x);
      forall v | 0 <= v < |routes|
        ensures OnlyOrder(routes'[v], x) == if x in gone then [] else OnlyOrder(routes[v], x)
      {
        WithoutOnly(routes[v], gone, x);
      }
      if x !in gone {
        SameStopsSameAccount(n, routes, routes', out, out + gone, x);
      }
    }
  }

  /** Emptying a route leaves its orders out. */
  lemma ClearConserves(n: nat, routes: seq<Route>, out: set<nat>, v: nat)
    requires Conserves(n, routes, out) && v < |routes|
    ensures Conserves(n, routes[v := []], out + OrdersOf(routes[v]))
    ensures OrdersOf(routes[v]) !! out && forall o | o in OrdersOf(routes[v]) :: o < n
  {
    hide OrdersOf;
    var routes', out' := routes[v := []], out + OrdersOf(routes[v]);
    forall x: nat
      ensures Accounted(n, routes', out', x)
      ensures x in OrdersOf(routes[v]) ==> x < n && x !in out
    {
      hide OnlyOrder;
      assert Accounted(n, routes, out, x);
      MentionedIffOnRoute(routes[v], x);
      assert OnlyOrder([], x) == [] by { NoStops(x); }
      if x !in OrdersOf(routes[v]) {
        SameStopsSameAccount(n, routes, routes', out, out', x);
      }
    }
  }

  lemma NoStops(x: nat)
    ensures OnlyOrder([], x) == []
  {
  }

  /** A route without stops can be dropped from the list. */
  lemma DropEmptyConserves(n: nat, before: seq<Route>, after: seq<Route>, out: set<nat>)
    requires Conserves(n, before + [[]] + after, out)
    ensures Conserves(n, before + after, out)
  {
    hide OnlyOrder;
    var routes, routes' := before + [[]] + after, before + after;
    forall x: nat
      ensures Accounted(n, routes', out, x)
    {
      assert Accounted(n, routes, out, x);
      NoStops(x);
      forall v | 0 <= v < |routes'|
        ensures routes'[v] == routes[if v < |before| then v else v + 1]
      {
      }
      if x < n && x !in out {
        var v :| 0 <= v < |routes| && PlacedOn(routes, x, v);
        assert v != |before|;
        assert PlacedOn(routes', x, if v < |before| then v else v - 1);
      }
    }
  }

  lemma NothingPlaced(n: nat, routes: seq<Route>, all: set<nat>)
    requires forall v | 0 <= v < |routes| :: routes[v] == []
    requires forall o: nat :: o in all <==> o < n
    ensures Conserves(n, routes, all)
  {
    forall x: nat
      ensures Accounted(n, routes, all, x)
    {
      NoStops(x);
    }
  }

  /** A route with stops holds an order that is not left out. */
  lemma RouteHoldsOrders(n: nat, routes: seq<Route>, out: set<nat>, v: nat)
    requires Conserves(n, routes, out) && v < |routes|
    ensures forall o | o in OrdersOf(routes[v]) ::
              o < n && o !in out && Pickup(o) in routes[v] && PlacedOn(routes, o, v)
    ensures routes[v] != [] ==> OrdersOf(routes[v]) != {}
  {
    forall o | o in OrdersOf(routes[v])
      ensures o < n && o !in out && Pickup(o) in routes[v] && PlacedOn(routes, o, v)
    {
      assert Accounted(n, routes, out, o);
      MentionedIffOnRoute(routes[v], o);
      CountInOnly(routes[v], Pickup(o));
    }
    if routes[v] != [] {
      assert routes[v][0] in routes[v];
      assert routes[v][0].order in OrdersOf(routes[v]);
    }
  }

  /** No pickup happens twice, on one route or on two. */
  ghost predicate PickedUpOnce(routes: seq<Route>) {
    forall v, j, w, k |
      && 0 <= v < |routes| && 0 <= j < |routes[v]| && 0 <= w < |routes| && 0 <= k < |routes[w]|
      && routes[v][j].Pickup? && routes[v][j] == routes[w][k] ::
      v == w && j == k
  }

  lemma PickupsHappenOnce(n: nat, routes: seq<Route>, out: set<nat>)
    requires Conserves(n, routes, out)
    ensures PickedUpOnce(routes)
  {
    forall v, j, w, k |
      && 0 <= v < |routes| && 0 <= j < |routes[v]| && 0 <= w < |routes| && 0 <= k < |routes[w]|
      && routes[v][j].Pickup? && routes[v][j] == routes[w][k]
      ensures v == w && j == k
    {
      var o := routes[v][j].order;
      assert routes[v][j] in routes[v] && routes[w][k] in routes[w];
      assert o in OrdersOf(routes[v]) && o in OrdersOf(routes[w]);
      RouteHoldsOrders(n, routes, out, v);
      MentionedIffOnRoute(routes[w], o);
      if v == w && j < k {
        OrderWithin(routes[v], j, k);
      } else if v == w && k < j {
        OrderWithin(routes[v], k, j);
      }
    }
  }

  lemma PickedUpIffPlaced(n: nat, routes: seq<Route>, out: set<nat>, o: nat)
    requires Conserves(n, routes, out)
    ensures (exists v :: 0 <= v < |routes| && Pickup(o) in routes[v]) <==> o < n && o !in out
  {
    assert Accounted(n, routes, out, o);
    if v :| 0 <= v < |routes| && Pickup(o) in routes[v] {
      assert Pickup(o).order in OrdersOf(routes[v]);
      MentionedIffOnRoute(routes[v], o);
    }
    if o < n && o !in out {
      var v :| 0 <= v < |routes| && PlacedOn(routes, o, v);
      CountInOnly(routes[v], Pickup(o));
      assert Pickup(o) in multiset(routes[v]);
    }
  }
}
