/** The weight aboard along a route: what the running total that insertion keeps stands for,
    and how taking orders out of a route changes it. */
module RouteLoads {
  import opened Prelude
  import opened RouteStops
  import opened OrderConservation
  import opened MapSums
  import PrecedenceSequences

  /** The orders picked up and not yet delivered once these stops are done. */
  function Aboard(done: Route): set<nat> {
    set s | s in done && s.Pickup? && Delivery(s.order) !in done :: s.order
  }

  ghost function WeightsOf(weights: seq<nat>, orders: set<nat>): map<nat, int> {
    map o | o in orders && o < |weights| :: weights[o] as int
  }

  /** The weight of a set of orders. */
  ghost function WeightOf(weights: seq<nat>, orders: set<nat>): int {
    Sum<nat>(WeightsOf(weights, orders))
  }

  /** After every stop of the route the orders aboard weigh at most this much. */
  ghost predicate NeverHeavier(weights: seq<nat>, stops: Route, limit: int) {
    forall k | 0 <= k <= |stops| :: WeightOf(weights, Aboard(stops[..k])) <= limit
  }

  // ---------- the running total ----------

  function WeightChange(weights: seq<nat>, s: RouteStop): int {
    if s.order >= |weights| then 0 else if s.Pickup? then weights[s.order] as int else -(weights[s.order] as int)
  }

  function Load(weights: seq<nat>, stops: Route): int {
    if stops == [] then 0 else Load(weights, stops[..|stops| - 1]) + WeightChange(weights, stops[|stops| - 1])
  }

  /** No stop is made twice, and a delivery follows its pickup. */
  ghost predicate PicksUpThenDelivers(stops: Route) {
    && Distinct(stops)
    && forall k | 0 <= k < |stops| && stops[k].Delivery? :: Pickup(stops[k].order) in stops[..k]
  }

  lemma FrontPicksUpThenDelivers(stops: Route, k: nat)
    requires PicksUpThenDelivers(stops) && k <= |stops|
    ensures PicksUpThenDelivers(stops[..k])
  {
    assert forall j | 0 <= j < k :: stops[..k][..j] == stops[..j];
  }

  lemma AboardMembers(done: Route)
    ensures forall o: nat :: o in Aboard(done) <==> Pickup(o) in done && Delivery(o) !in done
  {
    forall o: nat | Pickup(o) in done && Delivery(o) !in done
      ensures o in Aboard(done)
    {
      assert Pickup(o).order == o;
    }
  }

  /** A stop made for the first time: before its pickup an order is not delivered, and
      before its delivery it is picked up. */
  lemma NextStop(done: Route, s: RouteStop)
    requires PicksUpThenDelivers(done + [s])
    ensures s !in done
    ensures s.Pickup? ==> Delivery(s.order) !in done
    ensures s.Delivery? ==> Pickup(s.order) in done
  {
    var more, last := done + [s], |done|;
    assert more[..last] == done && more[last] == s;
    forall k | 0 <= k < last
      ensures more[k] == done[k] && more[k] != s
    {
    }
    forall k | 0 <= k < last && done[k].Delivery?
      ensures Pickup(done[k].order) in done
    {
      assert Pickup(more[k].order) in more[..k];
    }
  }

  lemma AboardNext(done: Route, s: RouteStop)
    requires PicksUpThenDelivers(done + [s])
    ensures s.Pickup? ==> Aboard(done + [s]) == Aboard(done) + {s.order} && s.order !in Aboard(done)
    ensures s.Delivery? ==> Aboard(done + [s]) == Aboard(done) - {s.order} && s.order in Aboard(done)
  {
    hide PicksUpThenDelivers, Aboard;
    NextStop(done, s);
    AboardMembers(done);
    AboardMembers(done + [s]);
    assert forall t :: t in done + [s] <==> t in done || t == s;
  }

  /** The running total is the weight of what is aboard. */
  lemma {:induction false} LoadIsWeightAboard(weights: seq<nat>, done: Route)
    requires PicksUpThenDelivers(done)
    ensures Load(weights, done) == WeightOf(weights, Aboard(done))
  {
    hide PicksUpThenDelivers, Aboard;
    if done == [] {
      NothingAboard(weights);
    } else {
      var before, s := done[..|done| - 1], done[|done| - 1];
      assert done == before + [s];
      FrontPicksUpThenDelivers(done, |done| - 1);
      LoadIsWeightAboard(weights, before);
      AboardNext(before, s);
      WeightNext(weights, Aboard(before), s);
    }
  }

  lemma NothingAboard(weights: seq<nat>)
    ensures Aboard([]) == {} && WeightOf(weights, {}) == 0
  {
    assert WeightsOf(weights, {}) == map[];
  }

  lemma WeightNext(weights: seq<nat>, orders: set<nat>, s: RouteStop)
    requires s.Pickup? <==> s.order !in orders
    ensures WeightOf(weights, if s.Pickup? then orders + {s.order} else orders - {s.order})
         == WeightOf(weights, orders) + WeightChange(weights, s)
  {
    var o := s.order;
    var now := WeightsOf(weights, orders);
    if o >= |weights| {
      assert WeightsOf(weights, orders + {o}) == now && WeightsOf(weights, orders - {o}) == now;
    } else if s.Pickup? {
      var w: int := weights[o];
      assert WeightsOf(weights, orders + {o}) == now[o := w];
      SumInsert<nat>(now, o, w);
    } else {
      assert WeightsOf(weights, orders - {o}) == now - {o};
      SumRemove<nat>(now, o);
    }
  }

  lemma WeightOfFewer(weights: seq<nat>, orders: set<nat>, gone: set<nat>)
    ensures WeightOf(weights, orders - gone) <= WeightOf(weights, orders)
  {
    assert WeightsOf(weights, orders - gone) == WeightsOf(weights, orders) - gone;
    SumSubmap(WeightsOf(weights, orders), gone);
  }

  /** An order aboard weighs no more than all that is aboard. */
  lemma OneOfMany(weights: seq<nat>, orders: set<nat>, o: nat)
    requires o in orders && o < |weights|
    ensures weights[o] <= WeightOf(weights, orders)
  {
    var now := WeightsOf(weights, orders);
    SumRemove(now, o);
    SumNonNegative(now - {o});
  }

  /** Checking the running total after each stop is checking the weight aboard. */
  lemma LoadTestIsExact(weights: seq<nat>, stops: Route, limit: nat)
    requires PicksUpThenDelivers(stops)
    ensures NeverHeavier(weights, stops, limit) <==>
            forall k | 0 <= k <= |stops| :: k > 0 ==> Load(weights, stops[..k]) <= limit
  {
    hide PicksUpThenDelivers, Aboard;
    forall k | 0 <= k <= |stops|
      ensures Load(weights, stops[..k]) == WeightOf(weights, Aboard(stops[..k]))
    {
      FrontPicksUpThenDelivers(stops, k);
      LoadIsWeightAboard(weights, stops[..k]);
    }
    assert stops[..0] == [];
  }

  // ---------- routes of a plan ----------

  lemma OccurAtMostOnce(stops: Route, j: nat, k: nat)
    requires j < k < |stops| && multiset(stops)[stops[j]] <= 1
    ensures stops[j] != stops[k]
  {
    assert stops == stops[..k] + stops[k..];
    assert stops[j] in stops[..k] && stops[k] in stops[k..];
  }

  lemma ServingPicksUpThenDelivers(stops: Route, orders: set<nat>)
    requires PrecedenceSequences.ServesEachOnce(stops, {}, orders)
    ensures PicksUpThenDelivers(stops)
  {
    forall j, k | 0 <= j < k < |stops|
      ensures stops[j] != stops[k]
    {
      assert multiset(stops)[stops[j]] <= 1 by {
        assert stops[j] == if stops[j].Pickup? then Pickup(stops[j].order) else Delivery(stops[j].order);
      }
      OccurAtMostOnce(stops, j, k);
    }
    forall k | 0 <= k < |stops| && stops[k].Delivery?
      ensures Pickup(stops[k].order) in stops[..k]
    {
      var o := stops[k].order;
      assert stops[k] == Delivery(o) && multiset(stops)[Delivery(o)] > 0;
      var j := PrecedenceSequences.Occurs(stops, Pickup(o));
      assert j < k;
      assert stops[..k][j] == Pickup(o);
    }
  }

  lemma PlannedPicksUpThenDelivers(n: nat, routes: seq<Route>, out: set<nat>, v: nat)
    requires Conserves(n, routes, out) && v < |routes|
    ensures PicksUpThenDelivers(routes[v])
  {
    RouteServesEachOnce(n, routes, out, v);
    ServingPicksUpThenDelivers(routes[v], OrdersOf(routes[v]));
  }

  /** Where each stop of the longer route comes from. */
  lemma InsertedAt(stops: Route, o: nat, p: nat, d: nat, k: nat)
    requires p < d <= |stops| + 1 && k < |stops| + 2
    ensures Inserted(stops, o, p, d)[k] ==
            if k < p then stops[k]
            else if k == p then Pickup(o)
            else if k < d then stops[k - 1]
            else if k == d then Delivery(o)
            else stops[k - 2]
  {
  }

  lemma InsertedIsDistinct(stops: Route, o: nat, p: nat, d: nat)
    requires Distinct(stops) && o !in OrdersOf(stops) && p < d <= |stops| + 1
    ensures Distinct(Inserted(stops, o, p, d))
  {
    hide Inserted;
    var inserted := Inserted(stops, o, p, d);
    InsertedPlaces(stops, o, p, d);
    forall k | 0 <= k < |stops|
      ensures stops[k].order != o
    {
      assert stops[k] in stops;
    }
    forall j, k | 0 <= j < k < |inserted|
      ensures inserted[j] != inserted[k]
    {
      InsertedAt(stops, o, p, d, j);
      InsertedAt(stops, o, p, d, k);
    }
  }

  /** The place of a stop once a pickup and a delivery are put in before it. */
  function Shifted(j: nat, p: nat, d: nat): nat {
    if j < p then j else if j < d - 1 then j + 1 else j + 2
  }

  lemma InsertedDelivery(stops: Route, o: nat, p: nat, d: nat, m: nat)
    requires PicksUpThenDelivers(stops) && p < d <= |stops| + 1 && m < |stops| && stops[m].Delivery?
    ensures Shifted(m, p, d) < |stops| + 2 == |Inserted(stops, o, p, d)|
    ensures Pickup(stops[m].order) in Inserted(stops, o, p, d)[..Shifted(m, p, d)]
  {
    hide Inserted, Distinct;
    InsertedPlaces(stops, o, p, d);
    assert Pickup(stops[m].order) in stops[..m];
    var j :| 0 <= j < m && stops[..m][j] == Pickup(stops[m].order);
    InsertedAt(stops, o, p, d, Shifted(j, p, d));
    assert Inserted(stops, o, p, d)[..Shifted(m, p, d)][Shifted(j, p, d)] == stops[j];
  }

  lemma InsertedPicksUpThenDelivers(stops: Route, o: nat, p: nat, d: nat)
    requires PicksUpThenDelivers(stops) && o !in OrdersOf(stops) && p < d <= |stops| + 1
    ensures PicksUpThenDelivers(Inserted(stops, o, p, d))
  {
    hide Inserted, Distinct, OrdersOf;
    var inserted := Inserted(stops, o, p, d);
    InsertedIsDistinct(stops, o, p, d);
    InsertedPlaces(stops, o, p, d);
    forall k | 0 <= k < |inserted| && inserted[k].Delivery?
      ensures Pickup(inserted[k].order) in inserted[..k]
    {
      InsertedAt(stops, o, p, d, k);
      if k == d {
        assert inserted[..k][p] == Pickup(o);
      } else {
        InsertedDelivery(stops, o, p, d, if k < p then k else if k < d then k - 1 else k - 2);
      }
    }
  }

  /** Right after its pickup a new order is aboard, so its weight counts. */
  lemma PickedUpWeighs(weights: seq<nat>, stops: Route, o: nat, p: nat, d: nat, limit: nat)
    requires PicksUpThenDelivers(stops) && o !in OrdersOf(stops) && p < d <= |stops| + 1
    requires o < |weights| && NeverHeavier(weights, Inserted(stops, o, p, d), limit)
    ensures weights[o] <= limit
  {
    hide PicksUpThenDelivers, Inserted, OrdersOf, Aboard;
    var inserted := Inserted(stops, o, p, d);
    InsertedPicksUpThenDelivers(stops, o, p, d);
    InsertedPlaces(stops, o, p, d);
    FrontPicksUpThenDelivers(inserted, p + 1);
    assert inserted[..p + 1] == inserted[..p] + [Pickup(o)];
    AboardNext(inserted[..p], Pickup(o));
    OneOfMany(weights, Aboard(inserted[..p + 1]), o);
  }

  // ---------- taking orders out ----------

  lemma {:induction false} WithoutMembers(stops: Route, gone: set<nat>)
    ensures forall s :: s in WithoutOrders(stops, gone) <==> s in stops && s.order !in gone
  {
    if stops == [] {
    } else {
      WithoutMembers(stops[1..], gone);
      assert stops == [stops[0]] + stops[1..];
    }
  }

  /** Whatever has been done of the shorter route is what remains of a part of the longer one. */
  lemma {:induction false} WithoutPrefix(stops: Route, gone: set<nat>, k: nat) returns (m: nat)
    requires k <= |WithoutOrders(stops, gone)|
    ensures m <= |stops| && WithoutOrders(stops, gone)[..k] == WithoutOrders(stops[..m], gone)
  {
    if k == 0 {
      m := 0;
    } else {
      var rest := WithoutOrders(stops[1..], gone);
      if stops[0].order in gone {
        assert WithoutOrders(stops, gone) == rest;
        m := WithoutPrefix(stops[1..], gone, k);
      } else {
        m := WithoutPrefix(stops[1..], gone, k - 1);
        assert WithoutOrders(stops, gone)[..k] == [stops[0]] + rest[..k - 1];
      }
      m := m + 1;
      assert stops[..m][0] == stops[0] && stops[..m][1..] == stops[1..][..m - 1];
    }
  }

  /** Taking orders out of a route never makes it heavier anywhere. */
  lemma WithoutIsNeverHeavier(weights: seq<nat>, stops: Route, gone: set<nat>, limit: int)
    requires NeverHeavier(weights, stops, limit)
    ensures NeverHeavier(weights, WithoutOrders(stops, gone), limit)
  {
    hide WithoutOrders;
    forall k | 0 <= k <= |WithoutOrders(stops, gone)|
      ensures WeightOf(weights, Aboard(WithoutOrders(stops, gone)[..k])) <= limit
    {
      var m := WithoutPrefix(stops, gone, k);
      WithoutMembers(stops[..m], gone);
      assert Aboard(WithoutOrders(stops[..m], gone)) == Aboard(stops[..m]) - gone;
      WeightOfFewer(weights, Aboard(stops[..m]), gone);
    }
  }
}
