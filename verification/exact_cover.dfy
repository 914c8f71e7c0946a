/** Choosing routes so that every order is served exactly once and no vehicle slot is
    used twice: exhaustive enumeration, deduplication by plan signature, ranking. */
module ExactCover {
  import opened Prelude
  import opened Sorting
  import opened RouteStops

  datatype Route = Route(id: nat, stops: seq<RouteStop>, distance: int, duration: int)

  datatype RouteOption = RouteOption(vehicle: nat, orders: set<nat>, route: Route)

  /** What the ranking of a plan looks at. */
  datatype PlanCost = PlanCost(total: int, distance: int, duration: int)

  /** Driver assignment and costing: none when no legal driver assignment exists. */
  type Costing = multiset<Route> -> Option<PlanCost>

  type Signature = multiset<(nat, seq<RouteStop>)>

  function RouteKey(r: Route): (nat, seq<RouteStop>) {
    (r.id, r.stops)
  }

  function SignatureOf(routes: seq<Route>): Signature {
    if routes == [] then multiset{} else SignatureOf(routes[1..]) + multiset{RouteKey(routes[0])}
  }

  // ---------- exact covers ----------

  ghost function Chosen(s: seq<nat>): set<nat> {
    set k | k in s
  }

  /** The chosen options use distinct vehicles and serve disjoint orders. */
  ghost predicate Compatible(options: seq<RouteOption>, chosen: set<nat>) {
    && (forall j | j in chosen :: j < |options|)
    && forall j, k | j in chosen && k in chosen && j != k ::
         options[j].vehicle != options[k].vehicle && options[j].orders !! options[k].orders
  }

  ghost predicate Covers(options: seq<RouteOption>, chosen: set<nat>, orders: set<nat>) {
    forall o | o in orders :: exists k :: k in chosen && k < |options| && o in options[k].orders
  }

  ghost predicate IsExactCover(options: seq<RouteOption>, all: set<nat>, chosen: set<nat>) {
    Compatible(options, chosen) && Covers(options, chosen, all)
  }

  ghost predicate ValidOptions(options: seq<RouteOption>, all: set<nat>) {
    forall k | 0 <= k < |options| :: options[k].orders != {} && options[k].orders <= all
  }

  predicate Listed(options: seq<RouteOption>, listing: seq<nat>) {
    forall i | 0 <= i < |listing| :: listing[i] < |options|
  }

  function RoutesOf(options: seq<RouteOption>, listing: seq<nat>): (routes: seq<Route>)
    requires Listed(options, listing)
    ensures |routes| == |listing|
  {
    seq(|listing|, i requires 0 <= i < |listing| => options[listing[i]].route)
  }

  /** The listed options so far: compatible, with these orders and vehicles taken. */
  ghost predicate IsPartial(options: seq<RouteOption>, selected: seq<nat>, covered: set<nat>, used: set<nat>) {
    && Distinct(selected) && Listed(options, selected) && Compatible(options, Chosen(selected))
    && (forall o :: o in covered <==> exists k: nat :: k in selected && k < |options| && o in options[k].orders)
    && (forall v :: v in used <==> exists k: nat :: k in selected && k < |options| && options[k].vehicle == v)
  }

  // ---------- counting visits ----------

  /** How often a choice of options occurs among the listings. */
  ghost function Visits(visited: seq<seq<nat>>, chosen: set<nat>): nat {
    if visited == [] then 0
    else Visits(visited[..|visited| - 1], chosen) + if Chosen(visited[|visited| - 1]) == chosen then 1 else 0
  }

  lemma {:induction false} VisitsJoin(a: seq<seq<nat>>, b: seq<seq<nat>>, chosen: set<nat>)
    ensures Visits(a + b, chosen) == Visits(a, chosen) + Visits(b, chosen)
  {
    if b == [] {
      assert a + b == a;
    } else {
      var last := |b| - 1;
      VisitsJoin(a, b[..last], chosen);
      assert (a + b)[..|a + b| - 1] == a + b[..last];
    }
  }

  lemma {:induction false} VisitedOnce(visited: seq<seq<nat>>, chosen: set<nat>) returns (k: nat)
    requires Visits(visited, chosen) > 0
    ensures k < |visited| && Chosen(visited[k]) == chosen
  {
    var last := |visited| - 1;
    if Chosen(visited[last]) == chosen {
      k := last;
    } else {
      k := VisitedOnce(visited[..last], chosen);
    }
  }

  /** Extending the selection: the new listings are exactly the exact covers that
      contain it, each once. */
  ghost predicate VisitsExactly(options: seq<RouteOption>, all: set<nat>, selected: seq<nat>, visited: seq<seq<nat>>) {
    forall chosen: set<nat> ::
      Visits(visited, chosen) == if IsExactCover(options, all, chosen) && Chosen(selected) <= chosen then 1 else 0
  }

  /** The same with the first `n` of the listed options tried next. */
  ghost predicate VisitsThrough(options: seq<RouteOption>, all: set<nat>, selected: seq<nat>, list: seq<nat>, n: nat,
      visited: seq<seq<nat>>)
    requires n <= |list|
  {
    forall chosen: set<nat> ::
      Visits(visited, chosen) ==
      if IsExactCover(options, all, chosen) && Chosen(selected) <= chosen && exists j :: 0 <= j < n && list[j] in chosen
      then 1 else 0
  }

  lemma ChosenAppend(selected: seq<nat>, k: nat)
    ensures Chosen(selected + [k]) == Chosen(selected) + {k}
  {
  }

  lemma FullSelectionIsCover(options: seq<RouteOption>, all: set<nat>, selected: seq<nat>, used: set<nat>)
    requires IsPartial(options, selected, all, used)
    ensures IsExactCover(options, all, Chosen(selected))
  {
    forall o | o in all
      ensures exists k :: k in Chosen(selected) && k < |options| && o in options[k].orders
    {
      var k: nat :| k in selected && k < |options| && o in options[k].orders;
      assert k in Chosen(selected);
    }
  }

  lemma ServedBy(options: seq<RouteOption>, selected: seq<nat>, covered: set<nat>, used: set<nat>, o: nat)
      returns (j: nat)
    requires IsPartial(options, selected, covered, used) && o in covered
    ensures j in Chosen(selected) && j < |options| && o in options[j].orders
  {
    j :| j in selected && j < |options| && o in options[j].orders;
  }

  /** A selection that serves every order leaves no room for another option. */
  lemma NoRoomLeft(options: seq<RouteOption>, all: set<nat>, selected: seq<nat>, used: set<nat>, chosen: set<nat>)
    requires ValidOptions(options, all) && IsPartial(options, selected, all, used)
    requires Compatible(options, chosen) && Chosen(selected) <= chosen
    ensures chosen == Chosen(selected)
  {
    hide IsPartial, Chosen;
    forall k | k in chosen
      ensures k in Chosen(selected)
    {
      assert options[k].orders != {} && options[k].orders <= all;
      var o :| o in options[k].orders;
      var j := ServedBy(options, selected, all, used, o);
      assert j in chosen;
      if j != k {
        assert options[j].orders !! options[k].orders;
      }
    }
  }

  lemma VisitsOne(v: seq<nat>, chosen: set<nat>)
    ensures Visits([v], chosen) == if Chosen(v) == chosen then 1 else 0
  {
    assert [v][..0] == [];
  }

  lemma LeafVisit(options: seq<RouteOption>, all: set<nat>, selected: seq<nat>, used: set<nat>)
    requires ValidOptions(options, all) && IsPartial(options, selected, all, used)
    ensures VisitsExactly(options, all, selected, [selected])
    ensures IsExactCover(options, all, Chosen(selected))
  {
    hide IsPartial, ValidOptions, Compatible, Covers, Chosen;
    FullSelectionIsCover(options, all, selected, used);
    forall chosen: set<nat>
      ensures Visits([selected], chosen) ==
              if IsExactCover(options, all, chosen) && Chosen(selected) <= chosen then 1 else 0
    {
      VisitsOne(selected, chosen);
      if IsExactCover(options, all, chosen) && Chosen(selected) <= chosen {
        NoRoomLeft(options, all, selected, used, chosen);
      }
    }
  }

  /** An option that clashes with the selection is in no exact cover containing it. */
  lemma SkippedOption(options: seq<RouteOption>, all: set<nat>, selected: seq<nat>, covered: set<nat>, used: set<nat>,
      k: nat)
    requires IsPartial(options, selected, covered, used) && k < |options| && k !in selected
    requires options[k].vehicle in used || options[k].orders * covered != {}
    ensures forall chosen: set<nat> | IsExactCover(options, all, chosen) && Chosen(selected) <= chosen :: k !in chosen
  {
    forall chosen: set<nat> | IsExactCover(options, all, chosen) && Chosen(selected) <= chosen
      ensures k !in chosen
    {
      if options[k].vehicle in used {
        var j :| j in selected && options[j].vehicle == options[k].vehicle;
        assert j in chosen;
      } else {
        var o :| o in options[k].orders * covered;
        var j :| j in selected && o in options[j].orders;
        assert j in chosen;
      }
    }
  }

  lemma ExtendPartial(options: seq<RouteOption>, all: set<nat>, selected: seq<nat>, covered: set<nat>, used: set<nat>,
      k: nat)
    requires ValidOptions(options, all) && IsPartial(options, selected, covered, used) && k < |options|
    requires options[k].vehicle !in used && options[k].orders !! covered
    ensures IsPartial(options, selected + [k], covered + options[k].orders, used + {options[k].vehicle})
  {
    var longer := selected + [k];
    assert forall j :: j in longer <==> j in selected || j == k;
    forall j | j in selected
      ensures j < |options| && options[j].vehicle in used
      ensures options[j].vehicle != options[k].vehicle && options[j].orders !! options[k].orders
    {
      assert j in Chosen(selected);
      forall o | o in options[j].orders
        ensures o in covered
      {
      }
    }
    ChosenAppend(selected, k);
    forall j | j in Chosen(longer)
      ensures j < |options|
    {
      assert j == k || j in selected;
    }
    forall j, i | j in Chosen(longer) && i in Chosen(longer) && j != i
      ensures j < |options| && i < |options| && options[j].vehicle != options[i].vehicle
                && options[j].orders !! options[i].orders
    {
      assert j == k || j in Chosen(selected);
      assert i == k || i in Chosen(selected);
    }
  }

  /** Trying one more option that serves the next order. */
  lemma TriedOneMore(options: seq<RouteOption>, all: set<nat>, selected: seq<nat>, next: nat, list: seq<nat>, n: nat,
                     before: seq<seq<nat>>, added: seq<seq<nat>>)
    requires n < |list| && Distinct(list) && forall j | j in list :: j < |options| && next in options[j].orders
    requires VisitsThrough(options, all, selected, list, n, before)
    requires forall chosen: set<nat> ::
               Visits(added, chosen) ==
               if IsExactCover(options, all, chosen) && Chosen(selected) + {list[n]} <= chosen then 1 else 0
    ensures VisitsThrough(options, all, selected, list, n + 1, before + added)
  {
    forall chosen: set<nat>
      ensures Visits(before + added, chosen) ==
              if IsExactCover(options, all, chosen) && Chosen(selected) <= chosen
                 && exists j :: 0 <= j < n + 1 && list[j] in chosen
              then 1 else 0
    {
      VisitsJoin(before, added, chosen);
      if IsExactCover(options, all, chosen) && list[n] in chosen {
        forall j | 0 <= j < n
          ensures list[j] !in chosen
        {
          assert list[j] in list && list[n] in list;
          assert next in options[list[j]].orders && next in options[list[n]].orders;
        }
      }
    }
  }

  lemma NothingTried(options: seq<RouteOption>, all: set<nat>, selected: seq<nat>, list: seq<nat>)
    ensures VisitsThrough(options, all, selected, list, 0, [])
  {
  }

  /** All options for the next order have been tried, so all covers have been visited. */
  lemma AllTried(options: seq<RouteOption>, all: set<nat>, selected: seq<nat>, next: nat, list: seq<nat>,
      visited: seq<seq<nat>>)
    requires next in all && forall k: nat :: k in list <==> k < |options| && next in options[k].orders
    requires VisitsThrough(options, all, selected, list, |list|, visited)
    ensures VisitsExactly(options, all, selected, visited)
  {
    forall chosen: set<nat> | IsExactCover(options, all, chosen)
      ensures exists j :: 0 <= j < |list| && list[j] in chosen
    {
      var k :| k in chosen && k < |options| && next in options[k].orders;
      assert k in list;
    }
  }

  // ---------- counting the covers that have a driver assignment ----------

  ghost predicate HasCost(options: seq<RouteOption>, costing: Costing, listing: seq<nat>) {
    Listed(options, listing) && costing(multiset(RoutesOf(options, listing))).Some?
  }

  /** A listing of an exact cover that has a driver assignment. */
  ghost predicate IsAssignable(options: seq<RouteOption>, all: set<nat>, costing: Costing, listing: seq<nat>) {
    Distinct(listing) && IsExactCover(options, all, Chosen(listing)) && HasCost(options, costing, listing)
  }

  ghost function Costed(options: seq<RouteOption>, costing: Costing, visited: seq<seq<nat>>): nat {
    if visited == [] then 0
    else
      var last := |visited| - 1;
      Costed(options, costing, visited[..last]) + if HasCost(options, costing, visited[last]) then 1 else 0
  }

  lemma CostedNext(options: seq<RouteOption>, costing: Costing, visited: seq<seq<nat>>, v: seq<nat>)
    ensures Costed(options, costing, visited + [v])
         == Costed(options, costing, visited) + if HasCost(options, costing, v) then 1 else 0
  {
    assert (visited + [v])[..|visited|] == visited;
  }

  /** There are `n` exact covers that have a driver assignment, as choices of options. */
  ghost predicate CountsAssignable(options: seq<RouteOption>, all: set<nat>, costing: Costing, n: nat) {
    exists covers: set<set<nat>> :: |covers| == n && AreTheAssignable(options, all, costing, covers)
  }

  ghost predicate AreTheAssignable(options: seq<RouteOption>, all: set<nat>, costing: Costing,
      covers: set<set<nat>>) {
    forall chosen: set<nat> ::
      chosen in covers <==> exists v: seq<nat> :: IsAssignable(options, all, costing, v) && Chosen(v) == chosen
  }

  ghost predicate AreTheCosted(options: seq<RouteOption>, costing: Costing, visited: seq<seq<nat>>,
      covers: set<set<nat>>) {
    forall chosen: set<nat> ::
      chosen in covers <==> exists v :: v in visited && HasCost(options, costing, v) && Chosen(v) == chosen
  }

  lemma {:induction false} CostedCovers(options: seq<RouteOption>, costing: Costing, visited: seq<seq<nat>>)
      returns (covers: set<set<nat>>)
    requires forall chosen: set<nat> :: Visits(visited, chosen) <= 1
    ensures |covers| == Costed(options, costing, visited) && AreTheCosted(options, costing, visited, covers)
  {
    hide HasCost, Chosen;
    if visited == [] {
      covers := {};
    } else {
      var last := |visited| - 1;
      var front, v := visited[..last], visited[last];
      assert forall u :: u in visited <==> u in front || u == v;
      forall chosen: set<nat>
        ensures Visits(front, chosen) <= 1
      {
        assert Visits(visited, chosen) <= 1;
      }
      covers := CostedCovers(options, costing, front);
      if HasCost(options, costing, v) {
        assert Visits(visited, Chosen(v)) == Visits(front, Chosen(v)) + 1;
        if Chosen(v) in covers {
          var u :| u in front && HasCost(options, costing, u) && Chosen(u) == Chosen(v);
          VisitedAtLeastOnce(front, u);
          assert false;
        }
        covers := covers + {Chosen(v)};
      }
    }
  }

  lemma {:induction false} VisitedAtLeastOnce(visited: seq<seq<nat>>, v: seq<nat>)
    requires v in visited
    ensures Visits(visited, Chosen(v)) > 0
  {
    var last := |visited| - 1;
    if visited[last] != v {
      VisitedAtLeastOnce(visited[..last], v);
    }
  }

  /** Having cost does not depend on how a cover is listed. */
  lemma HasCostWhateverListing(options: seq<RouteOption>, costing: Costing, a: seq<nat>, b: seq<nat>)
    requires Distinct(a) && Distinct(b) && Chosen(a) == Chosen(b) && HasCost(options, costing, a)
    requires Listed(options, b)
    ensures HasCost(options, costing, b)
  {
    ListingsAgree(options, a, b);
  }

  /** When every cover was visited, the covers counted are all that have a driver assignment. */
  lemma CountIsExact(options: seq<RouteOption>, all: set<nat>, costing: Costing, visited: seq<seq<nat>>)
    requires VisitsExactly(options, all, [], visited)
    requires forall v | v in visited :: Distinct(v) && Listed(options, v) && IsExactCover(options, all, Chosen(v))
    ensures CountsAssignable(options, all, costing, Costed(options, costing, visited))
  {
    hide IsExactCover, HasCost, Distinct, Listed;
    forall chosen: set<nat>
      ensures Visits(visited, chosen) <= 1
    {
      assert VisitsExactly(options, all, [], visited);
    }
    var covers := CostedCovers(options, costing, visited);
    forall chosen: set<nat>
      ensures chosen in covers <==> exists v: seq<nat> :: IsAssignable(options, all, costing, v) && Chosen(v) == chosen
    {
      if chosen in covers {
        var v :| v in visited && HasCost(options, costing, v) && Chosen(v) == chosen;
        assert IsAssignable(options, all, costing, v);
      }
      if v: seq<nat> :| IsAssignable(options, all, costing, v) && Chosen(v) == chosen {
        assert Chosen([]) <= chosen;
        assert Visits(visited, chosen) == 1;
        var k := VisitedOnce(visited, chosen);
        assert visited[k] in visited;
        HasCostWhateverListing(options, costing, v, visited[k]);
      }
    }
    assert AreTheAssignable(options, all, costing, covers);
  }

  // ---------- the table of distinct plans ----------

  datatype Plan = Plan(routes: seq<Route>, cost: PlanCost)

  type Table = map<Signature, Plan>

  /** The table keeps, for each signature met, a visited plan at least as cheap. */
  ghost predicate TableFor(options: seq<RouteOption>, costing: Costing, visited: seq<seq<nat>>, table: Table) {
    && (forall v | v in visited :: Listed(options, v))
    && (forall v | v in visited && costing(multiset(RoutesOf(options, v))).Some? ::
          var s := SignatureOf(RoutesOf(options, v));
          s in table && table[s].cost.total <= costing(multiset(RoutesOf(options, v))).value.total)
    && (forall s | s in table :: CameFrom(options, costing, visited, s, table[s]))
  }

  lemma TableSkips(options: seq<RouteOption>, costing: Costing, visited: seq<seq<nat>>, table: Table, v: seq<nat>)
    requires TableFor(options, costing, visited, table) && Listed(options, v)
    requires costing(multiset(RoutesOf(options, v))).None?
    ensures TableFor(options, costing, visited + [v], table)
  {
    hide RoutesOf, SignatureOf, Listed;
    var longer := visited + [v];
    assert forall u :: u in longer <==> u in visited || u == v;
  }

  ghost predicate CameFrom(options: seq<RouteOption>, costing: Costing, visited: seq<seq<nat>>, s: Signature,
      plan: Plan)
    requires forall v | v in visited :: Listed(options, v)
  {
    exists v :: v in visited && plan.routes == RoutesOf(options, v)
                && SignatureOf(plan.routes) == s && costing(multiset(plan.routes)) == Some(plan.cost)
  }

  function Keep(table: Table, routes: seq<Route>, cost: PlanCost): Table {
    var s := SignatureOf(routes);
    if s !in table || cost.total < table[s].cost.total then table[s := Plan(routes, cost)] else table
  }

  lemma TableKeeps(options: seq<RouteOption>, costing: Costing, visited: seq<seq<nat>>, table: Table, v: seq<nat>,
      cost: PlanCost)
    requires TableFor(options, costing, visited, table) && Listed(options, v)
    requires costing(multiset(RoutesOf(options, v))) == Some(cost)
    ensures TableFor(options, costing, visited + [v], Keep(table, RoutesOf(options, v), cost))
  {
    hide RoutesOf, SignatureOf, Listed;
    var longer, routes := visited + [v], RoutesOf(options, v);
    assert forall u :: u in longer <==> u in visited || u == v;
    var s, table' := SignatureOf(routes), Keep(table, routes, cost);
    forall t | t in table'
      ensures CameFrom(options, costing, longer, t, table'[t])
    {
      if t == s && table'[t] == Plan(routes, cost) {
        assert v in longer;
      } else {
        assert table'[t] == table[t] && CameFrom(options, costing, visited, t, table[t]);
        var u :| u in visited && table[t].routes == RoutesOf(options, u)
                 && SignatureOf(table[t].routes) == t && costing(multiset(table[t].routes)) == Some(table[t].cost);
        assert u in longer;
      }
    }
  }

  // ---------- the enumeration ----------

  /** How many options serve the order. */
  ghost function OptionCount(options: seq<RouteOption>, order: nat): nat {
    if options == [] then 0
    else OptionCount(options[..|options| - 1], order) + if order in options[|options| - 1].orders then 1 else 0
  }

  class Enumeration {
    const options: seq<RouteOption>
    const allOrders: set<nat>
    const costing: Costing
    var distinctAssignments: Table
    var completeAssignments: nat
    var completed: bool
    ghost var visited: seq<seq<nat>>

    constructor (options: seq<RouteOption>, allOrders: set<nat>, costing: Costing)
      ensures this.options == options && this.allOrders == allOrders && this.costing == costing
      ensures distinctAssignments == map[] && completeAssignments == 0 && completed && visited == []
    {
      this.options, this.allOrders, this.costing := options, allOrders, costing;
      distinctAssignments, completeAssignments, completed, visited := map[], 0, true, [];
    }

    ghost predicate Valid()
      reads this
    {
      && ValidOptions(options, allOrders) && TableFor(options, costing, visited, distinctAssignments)
      && completeAssignments == Costed(options, costing, visited)
    }

    /** The shared deadline may have passed. */
    method CheckDeadline() returns (expired: bool)
      modifies this`completed
      ensures expired ==> !completed
      ensures !expired ==> completed == old(completed)
    {
      expired := *;
      if expired {
        completed := false;
      }
    }

    method OptionsFor(order: nat) returns (list: seq<nat>)
      ensures forall k: nat :: k in list <==> k < |options| && order in options[k].orders
      ensures Distinct(list) && |list| == OptionCount(options, order)
    {
      list := [];
      for k := 0 to |options|
        invariant forall j: nat :: j in list <==> j < k && order in options[j].orders
        invariant Distinct(list) && |list| == OptionCount(options[..k], order)
      {
        assert options[..k + 1][..k] == options[..k];
        if order in options[k].orders {
          list := list + [k];
        }
      }
      assert options[..|options|] == options;
    }

    /** An uncovered order with the fewest options. */
    method NextOrder(covered: set<nat>) returns (next: nat)
      requires covered <= allOrders && covered != allOrders
      ensures next in allOrders - covered
      ensures forall order | order in allOrders - covered :: OptionCount(options, next) <= OptionCount(options, order)
    {
      assert exists order :: order in allOrders && order !in covered by {
        assert !(allOrders <= covered);
      }
      next :| next in allOrders && next !in covered;
      var pending := allOrders - covered;
      var list := OptionsFor(next);
      var fewest := |list|;
      pending := pending - {next};
      while pending != {}
        invariant pending <= allOrders - covered
        invariant next in allOrders - covered && fewest == OptionCount(options, next)
        invariant forall order | order in allOrders - covered - pending :: fewest <= OptionCount(options, order)
      {
        var order :| order in pending;
        list := OptionsFor(order);
        if |list| < fewest {
          next, fewest := order, |list|;
        }
        pending := pending - {order};
      }
    }

    method EnumerateAssignments(covered: set<nat>, used: set<nat>, selected: seq<nat>)
      requires Valid() && covered <= allOrders && IsPartial(options, selected, covered, used)
      modifies this
      ensures Valid() && old(visited) <= visited
      ensures !old(completed) ==> !completed
      ensures forall v | v in visited[|old(visited)|..] :: Distinct(v) && IsExactCover(options, allOrders, Chosen(v))
      ensures completed ==> VisitsExactly(options, allOrders, selected, visited[|old(visited)|..])
      decreases allOrders - covered
    {
      hide IsExactCover, VisitsExactly, VisitsThrough, TableFor, ValidOptions, IsPartial, Distinct, Costed, OptionCount;
      ghost var start := visited;
      var expired := CheckDeadline();
      if expired {
        assert visited[|start|..] == [];
        return;
      }
      if covered == allOrders {
        RecordCover(used, selected);
        assert visited[|start|..] == [selected];
        return;
      }
      var next := NextOrder(covered);
      var list := OptionsFor(next);
      NothingTried(options, allOrders, selected, list);
      assert visited[|start|..] == [];
      for n := 0 to |list|
        invariant Valid() && start <= visited
        invariant !old(completed) ==> !completed
        invariant forall v | v in visited[|start|..] :: Distinct(v) && IsExactCover(options, allOrders, Chosen(v))
        invariant completed ==> VisitsThrough(options, allOrders, selected, list, n, visited[|start|..])
      {
        var k := list[n];
        assert k in list;
        ghost var before := visited;
        NotYetSelected(options, selected, covered, used, next, k);
        if options[k].vehicle in used || options[k].orders * covered != {} {
          if completed {
            SkippedOption(options, allOrders, selected, covered, used, k);
            NoneThrough(options, allOrders, selected, next, list, n, visited[|start|..]);
          }
          continue;
        }
        NoCommonOrder(options[k].orders, covered);
        ExtendPartial(options, allOrders, selected, covered, used, k);
        CoverGrows(options, allOrders, covered, k, next);
        EnumerateAssignments(covered + options[k].orders, used + {options[k].vehicle}, selected + [k]);
        ghost var added := visited[|before|..];
        assert visited[|start|..] == before[|start|..] + added;
        if completed {
          SomeThrough(options, allOrders, selected, next, list, n, before[|start|..], added);
        }
        expired := CheckDeadline();
        if expired {
          return;
        }
      }
      if completed {
        AllTried(options, allOrders, selected, next, list, visited[|start|..]);
      }
    }

    /** A complete choice: cost it, and keep it if it is the cheapest of its signature. */
    method RecordCover(ghost used: set<nat>, selected: seq<nat>)
      requires Valid() && IsPartial(options, selected, allOrders, used)
      modifies this
      ensures Valid() && visited == old(visited) + [selected] && completed == old(completed)
      ensures Distinct(selected) && IsExactCover(options, allOrders, Chosen(selected))
      ensures VisitsExactly(options, allOrders, selected, [selected])
    {
      hide IsExactCover, VisitsExactly, TableFor, ValidOptions;
      CostedNext(options, costing, visited, selected);
      LeafVisit(options, allOrders, selected, used);
      assert forall k :: k in selected <==> k in Chosen(selected);
      var routes := RoutesOf(options, selected);
      var cost := costing(multiset(routes));
      visited := visited + [selected];
      if cost.None? {
        TableSkips(options, costing, old(visited), distinctAssignments, selected);
        return;
      }
      TableKeeps(options, costing, old(visited), distinctAssignments, selected, cost.value);
      completeAssignments := completeAssignments + 1;
      distinctAssignments := Keep(distinctAssignments, routes, cost.value);
    }
  }

  lemma NoCommonOrder(a: set<nat>, b: set<nat>)
    requires a * b == {}
    ensures a !! b
  {
    assert forall o :: o in a && o in b ==> o in a * b;
  }

  lemma NotYetSelected(options: seq<RouteOption>, selected: seq<nat>, covered: set<nat>, used: set<nat>, next: nat,
      k: nat)
    requires IsPartial(options, selected, covered, used) && next !in covered
    requires k < |options| && next in options[k].orders
    ensures k !in selected
  {
  }

  lemma CoverGrows(options: seq<RouteOption>, all: set<nat>, covered: set<nat>, k: nat, next: nat)
    requires ValidOptions(options, all) && k < |options| && next in options[k].orders && next !in covered
               && covered <= all
    ensures covered + options[k].orders <= all
    ensures all - (covered + options[k].orders) < all - covered
  {
    assert next in all - covered && next !in all - (covered + options[k].orders);
  }

  lemma NoneThrough(options: seq<RouteOption>, all: set<nat>, selected: seq<nat>, next: nat, list: seq<nat>, n: nat,
      visited: seq<seq<nat>>)
    requires n < |list|
    requires VisitsThrough(options, all, selected, list, n, visited)
    requires forall chosen: set<nat> | IsExactCover(options, all, chosen) && Chosen(selected) <= chosen ::
               list[n] !in chosen
    ensures VisitsThrough(options, all, selected, list, n + 1, visited)
  {
    hide IsExactCover;
  }

  lemma SomeThrough(options: seq<RouteOption>, all: set<nat>, selected: seq<nat>, next: nat, list: seq<nat>, n: nat,
                    before: seq<seq<nat>>, added: seq<seq<nat>>)
    requires n < |list| && Distinct(list) && forall k: nat :: k in list <==> k < |options| && next in options[k].orders
    requires VisitsThrough(options, all, selected, list, n, before)
    requires VisitsExactly(options, all, selected + [list[n]], added)
    ensures VisitsThrough(options, all, selected, list, n + 1, before + added)
  {
    ChosenAppend(selected, list[n]);
    TriedOneMore(options, all, selected, next, list, n, before, added);
  }

  // ---------- ranking ----------

  /** By total cost, then distance, then duration. */
  predicate RanksBefore(a: Plan, b: Plan) {
    if a.cost.total != b.cost.total then a.cost.total < b.cost.total
    else if a.cost.distance != b.cost.distance then a.cost.distance < b.cost.distance
    else a.cost.duration <= b.cost.duration
  }

  ghost predicate Distinguished(plans: seq<Plan>) {
    forall j, k | 0 <= j < |plans| && 0 <= k < |plans| && j != k ::
      SignatureOf(plans[j].routes) != SignatureOf(plans[k].routes)
  }

  method PlansOf(table: Table) returns (plans: seq<Plan>)
    requires forall s | s in table :: SignatureOf(table[s].routes) == s
    ensures forall p :: p in plans <==> p in table.Values
    ensures Distinguished(plans)
  {
    hide SignatureOf;
    plans := [];
    var pending := table.Keys;
    while pending != {}
      invariant pending <= table.Keys
      invariant forall p :: p in plans <==> exists s :: s in table && s !in pending && table[s] == p
      invariant Distinguished(plans)
    {
      var s :| s in pending;
      ghost var before := plans;
      plans := plans + [table[s]];
      forall p
        ensures p in plans <==> exists t :: t in table && t !in pending - {s} && table[t] == p
      {
        if p in before {
          var t :| t in table && t !in pending && table[t] == p;
          assert t !in pending - {s};
        }
      }
      forall k | 0 <= k < |before|
        ensures SignatureOf(before[k].routes) != s
      {
        assert before[k] in before;
      }
      pending := pending - {s};
    }
  }

  lemma DistinguishedWhateverOrder(a: seq<Plan>, b: seq<Plan>)
    requires multiset(a) == multiset(b) && Distinguished(a)
    ensures Distinguished(b)
  {
    hide SignatureOf;
    forall j, k | 0 <= j < |b| && 0 <= k < |b| && j != k
      ensures SignatureOf(b[j].routes) != SignatureOf(b[k].routes)
    {
      var i, l := TwoPlaces(a, b, if j < k then j else k, if j < k then k else j);
      assert SignatureOf(a[i].routes) != SignatureOf(a[l].routes);
    }
  }

  /** Two entries of one listing stand at two different places of the other. */
  lemma TwoPlaces<T>(a: seq<T>, b: seq<T>, j: nat, k: nat) returns (i: nat, l: nat)
    requires multiset(a) == multiset(b) && j < k < |b|
    ensures i < |a| && l < |a| && i != l && a[i] == b[j] && a[l] == b[k]
  {
    assert b[j] in multiset(a);
    i :| 0 <= i < |a| && a[i] == b[j];
    var rest := RemoveAt(a, i);
    RemoveAtMultiset(a, i);
    RemoveAtMultiset(b, j);
    assert RemoveAt(b, j)[k - 1] == b[k];
    CancelOne(multiset(rest), multiset(RemoveAt(b, j)), b[j]);
    assert b[k] in multiset(rest);
    var m :| 0 <= m < |rest| && rest[m] == b[k];
    l := if m < i then m else m + 1;
  }

  /** The routes of a choice of options do not depend on how it is listed. */
  lemma ListingsAgree(options: seq<RouteOption>, a: seq<nat>, b: seq<nat>)
    requires Distinct(a) && Distinct(b) && Chosen(a) == Chosen(b) && Listed(options, a) && Listed(options, b)
    ensures multiset(RoutesOf(options, a)) == multiset(RoutesOf(options, b))
  {
    assert forall k :: k in a <==> k in Chosen(a);
    assert forall k :: k in b <==> k in Chosen(b);
    DistinctPermutation(a, b);
    RoutesFollowListing(options, a, b);
  }

  lemma {:induction false} RoutesFollowListing(options: seq<RouteOption>, a: seq<nat>, b: seq<nat>)
    requires multiset(a) == multiset(b) && Listed(options, a) && Listed(options, b)
    ensures multiset(RoutesOf(options, a)) == multiset(RoutesOf(options, b))
    decreases |a|
  {
    if a == [] {
      assert |b| == |multiset(b)|;
    } else {
      assert a[0] in multiset(b);
      var j :| 0 <= j < |b| && b[j] == a[0];
      RemoveHeadAndMatch(a, b, j);
      assert forall i | 0 <= i < |b| - 1 :: RemoveAt(b, j)[i] == if i < j then b[i] else b[i + 1];
      RoutesFollowListing(options, a[1..], RemoveAt(b, j));
      var ra, rb := RoutesOf(options, a), RoutesOf(options, b);
      assert RoutesOf(options, a[1..]) == ra[1..];
      assert RoutesOf(options, RemoveAt(b, j)) == RemoveAt(rb, j);
      RemoveAtMultiset(rb, j);
      assert ra == [ra[0]] + ra[1..];
    }
  }

  lemma {:induction false} SignatureFirst(routes: seq<Route>, j: nat)
    requires j < |routes|
    ensures SignatureOf(routes) == SignatureOf(RemoveAt(routes, j)) + multiset{RouteKey(routes[j])}
  {
    hide RouteKey;
    if j == 0 {
      assert RemoveAt(routes, 0) == routes[1..];
    } else {
      SignatureFirst(routes[1..], j - 1);
      assert RemoveAt(routes, j)[1..] == RemoveAt(routes[1..], j - 1);
    }
  }

  /** The signature of a plan depends on its routes only. */
  lemma {:induction false} SignatureWhateverOrder(a: seq<Route>, b: seq<Route>)
    requires multiset(a) == multiset(b)
    ensures SignatureOf(a) == SignatureOf(b)
    decreases |a|
  {
    if a == [] {
      assert |b| == |multiset(b)|;
    } else {
      assert a[0] in multiset(b);
      var j :| 0 <= j < |b| && b[j] == a[0];
      RemoveHeadAndMatch(a, b, j);
      SignatureWhateverOrder(a[1..], RemoveAt(b, j));
      SignatureFirst(b, j);
    }
  }

  /** Two plans with one signature are, route by route, the same vehicles making the same
      stops in the same order, whatever the order of the routes. */
  ghost predicate SameTrips(a: seq<Route>, b: seq<Route>) {
    exists c: seq<Route> :: multiset(c) == multiset(b) && TripsMatch(a, c)
  }

  ghost predicate TripsMatch(a: seq<Route>, c: seq<Route>) {
    |a| == |c| && forall k | 0 <= k < |a| :: a[k].id == c[k].id && a[k].stops == c[k].stops
  }

  lemma SameSignatureIff(a: seq<Route>, b: seq<Route>)
    ensures SignatureOf(a) == SignatureOf(b) <==> SameTrips(a, b)
  {
    if SignatureOf(a) == SignatureOf(b) {
      var c := Matched(a, b);
    }
    if SameTrips(a, b) {
      var c: seq<Route> :| multiset(c) == multiset(b) && TripsMatch(a, c);
      MatchingSignatures(a, c);
      SignatureWhateverOrder(c, b);
    }
  }

  lemma {:induction false} MatchingSignatures(a: seq<Route>, c: seq<Route>)
    requires TripsMatch(a, c)
    ensures SignatureOf(a) == SignatureOf(c)
  {
    if a == [] {
    } else {
      MatchingSignatures(a[1..], c[1..]);
    }
  }

  lemma {:induction false} InSignature(routes: seq<Route>, key: (nat, seq<RouteStop>)) returns (j: nat)
    requires key in SignatureOf(routes)
    ensures j < |routes| && RouteKey(routes[j]) == key
  {
    if RouteKey(routes[0]) == key {
      j := 0;
    } else {
      j := InSignature(routes[1..], key);
      j := j + 1;
    }
  }

  lemma NoSignatureNoRoutes(routes: seq<Route>)
    ensures SignatureOf(routes) == multiset{} ==> routes == []
  {
    assert routes == [] || RouteKey(routes[0]) in SignatureOf(routes);
  }

  /** The routes of the second plan in the order of the first. */
  lemma {:induction false} Matched(a: seq<Route>, b: seq<Route>) returns (c: seq<Route>)
    requires SignatureOf(a) == SignatureOf(b)
    ensures multiset(c) == multiset(b) && TripsMatch(a, c)
    decreases |a|
  {
    if a == [] {
      NoSignatureNoRoutes(b);
      c := [];
    } else {
      hide RouteKey;
      var j := InSignature(b, RouteKey(a[0]));
      SignatureFirst(b, j);
      CancelOne(SignatureOf(a[1..]), SignatureOf(RemoveAt(b, j)), RouteKey(a[0]));
      var rest := Matched(a[1..], RemoveAt(b, j));
      c := [b[j]] + rest;
      RemoveAtMultiset(b, j);
      SameKeyMatches(a, b[j], rest);
    }
  }

  lemma SameKeyMatches(a: seq<Route>, first: Route, rest: seq<Route>)
    requires a != [] && RouteKey(a[0]) == RouteKey(first) && TripsMatch(a[1..], rest)
    ensures TripsMatch(a, [first] + rest)
  {
    assert forall k | 0 < k < |a| :: a[k] == a[1..][k - 1] && ([first] + rest)[k] == rest[k - 1];
  }

  /** Cheaper, or as cheap and shorter, or as short and no slower. */
  ghost predicate InOrder(plans: seq<Plan>) {
    forall j, k | 0 <= j < k < |plans| ::
      var a, b := plans[j].cost, plans[k].cost;
      || a.total < b.total
      || (a.total == b.total && a.distance < b.distance)
      || (a.total == b.total && a.distance == b.distance && a.duration <= b.duration)
  }

  /** A returned plan: the routes and the cost of an exact cover with a driver assignment. */
  ghost predicate IsPlanFor(options: seq<RouteOption>, all: set<nat>, costing: Costing, plan: Plan) {
    exists v: seq<nat> :: IsAssignable(options, all, costing, v)
      && plan.routes == RoutesOf(options, v) && costing(multiset(plan.routes)) == Some(plan.cost)
  }

  /** No plan with this signature and cost is missing: its signature is returned at no
      higher cost, or the list is full and all that is on it costs no more. */
  ghost predicate IsRanked(plans: seq<Plan>, maxCandidates: nat, s: Signature, total: int) {
    || (exists p :: p in plans && SignatureOf(p.routes) == s && p.cost.total <= total)
    || (|plans| == maxCandidates && forall p | p in plans :: p.cost.total <= total)
  }

  /** Distinct plans in order of cost, not more than asked for, and every exact cover with
      a driver assignment is among them or not cheaper than any of them. */
  ghost predicate IsRanking(options: seq<RouteOption>, all: set<nat>, costing: Costing, plans: seq<Plan>,
      maxCandidates: nat) {
    forall listing: seq<nat> | IsAssignable(options, all, costing, listing) ::
      var routes := RoutesOf(options, listing);
      IsRanked(plans, maxCandidates, SignatureOf(routes), costing(multiset(routes)).value.total)
  }

  /** The first of the ranked plans is a cheapest one, and there is one if there can be. */
  lemma FirstIsCheapest(options: seq<RouteOption>, all: set<nat>, costing: Costing, plans: seq<Plan>,
      maxCandidates: nat, listing: seq<nat>)
    requires IsRanking(options, all, costing, plans, maxCandidates) && InOrder(plans)
    requires IsAssignable(options, all, costing, listing) && maxCandidates > 0
    ensures plans != [] && plans[0].cost.total <= costing(multiset(RoutesOf(options, listing))).value.total
  {
    hide IsExactCover, RoutesOf, SignatureOf, Listed, Distinct;
    var routes := RoutesOf(options, listing);
    assert IsRanked(plans, maxCandidates, SignatureOf(routes), costing(multiset(routes)).value.total);
    if p :| p in plans && p.cost.total <= costing(multiset(routes)).value.total {
      var k :| 0 <= k < |plans| && plans[k] == p;
    }
  }

  /** Each choice of routes on distinct slots that serves every order exactly once is
      visited exactly once, those with a driver assignment are counted, and the plans
      returned are the cheapest of them, although plans with one signature are merged. */
  method SolveAssignmentPhase(options: seq<RouteOption>, allOrders: set<nat>, costing: Costing, maxCandidates: nat)
    returns (plans: seq<Plan>, completed: bool, completeAssignments: nat, ghost visited: seq<seq<nat>>)
    requires ValidOptions(options, allOrders)
    ensures |plans| <= maxCandidates && InOrder(plans) && Distinguished(plans)
    ensures forall p | p in plans :: IsPlanFor(options, allOrders, costing, p)
    ensures completeAssignments == Costed(options, costing, visited)
    ensures completed ==> VisitsExactly(options, allOrders, [], visited)
    ensures completed ==> CountsAssignable(options, allOrders, costing, completeAssignments)
    ensures completed ==> IsRanking(options, allOrders, costing, plans, maxCandidates)
  {
    hide IsExactCover, VisitsExactly, ValidOptions, TableFor, Distinct, RoutesOf, Listed, Costed, CountsAssignable,
        IsRanking, Distinguished, IsPlanFor;
    var e := new Enumeration(options, allOrders, costing);
    NothingVisited(options, costing);
    assert IsPartial(options, [], {}, {}) by { NothingSelected(options); }
    e.EnumerateAssignments({}, {}, []);
    completed, completeAssignments, visited := e.completed, e.completeAssignments, e.visited;
    assert visited[0..] == visited;
    plans := RankPlans(options, allOrders, costing, visited, e.distinctAssignments, maxCandidates);
    if completed {
      VisitedAreListed(options, costing, visited, e.distinctAssignments);
      CountIsExact(options, allOrders, costing, visited);
    }
  }

  lemma VisitedAreListed(options: seq<RouteOption>, costing: Costing, visited: seq<seq<nat>>, table: Table)
    requires TableFor(options, costing, visited, table)
    ensures forall v | v in visited :: Listed(options, v)
  {
  }

  lemma NothingSelected(options: seq<RouteOption>)
    ensures IsPartial(options, [], {}, {})
  {
  }

  lemma TableSignatures(options: seq<RouteOption>, costing: Costing, visited: seq<seq<nat>>, table: Table)
    requires TableFor(options, costing, visited, table)
    ensures forall s | s in table :: SignatureOf(table[s].routes) == s
  {
    forall s | s in table
      ensures SignatureOf(table[s].routes) == s
    {
      assert CameFrom(options, costing, visited, s, table[s]);
    }
  }

  /** The best of the distinct plans. */
  method RankPlans(options: seq<RouteOption>, allOrders: set<nat>, costing: Costing, ghost visited: seq<seq<nat>>,
                   table: Table, maxCandidates: nat) returns (plans: seq<Plan>)
    requires TableFor(options, costing, visited, table)
    requires forall v | v in visited :: Distinct(v) && IsExactCover(options, allOrders, Chosen(v))
    ensures |plans| <= maxCandidates && InOrder(plans) && Distinguished(plans)
    ensures forall p | p in plans :: IsPlanFor(options, allOrders, costing, p)
    ensures VisitsExactly(options, allOrders, [], visited) ==>
              IsRanking(options, allOrders, costing, plans, maxCandidates)
  {
    hide IsExactCover, VisitsExactly, TableFor, RoutesOf, SortBy, SignatureOf, IsPlanFor;
    TableSignatures(options, costing, visited, table);
    var found := PlansOf(table);
    var ranked := SortBy(found, RanksBefore);
    SameMembers(ranked, found);
    SortBySorted(found, RanksBefore);
    DistinguishedWhateverOrder(found, ranked);
    plans := if |ranked| <= maxCandidates then ranked else ranked[..maxCandidates];
    forall p | p in plans
      ensures p in table.Values
    {
      assert p in ranked;
    }
    PlansComeFromCovers(options, allOrders, costing, visited, table, plans);
    if VisitsExactly(options, allOrders, [], visited) {
      BestAreReturned(options, allOrders, costing, visited, table, ranked, plans, maxCandidates);
    }
  }

  lemma PlansComeFromCovers(options: seq<RouteOption>, all: set<nat>, costing: Costing, visited: seq<seq<nat>>,
      table: Table, plans: seq<Plan>)
    requires TableFor(options, costing, visited, table)
    requires forall v | v in visited :: Distinct(v) && IsExactCover(options, all, Chosen(v))
    requires forall p | p in plans :: p in table.Values
    ensures forall p | p in plans :: IsPlanFor(options, all, costing, p)
  {
    hide IsExactCover, SignatureOf, RoutesOf, Listed, Distinct;
    forall p | p in plans
      ensures IsPlanFor(options, all, costing, p)
    {
      var s :| s in table && table[s] == p;
      assert CameFrom(options, costing, visited, s, p);
      var v :| v in visited && p.routes == RoutesOf(options, v) && costing(multiset(p.routes)) == Some(p.cost);
      assert IsAssignable(options, all, costing, v);
    }
  }

  lemma BestAreReturned(options: seq<RouteOption>, all: set<nat>, costing: Costing, visited: seq<seq<nat>>,
      table: Table, ranked: seq<Plan>, plans: seq<Plan>, maxCandidates: nat)
    requires TableFor(options, costing, visited, table) && VisitsExactly(options, all, [], visited)
    requires forall v | v in visited :: Distinct(v)
    requires forall p :: p in ranked <==> p in table.Values
    requires SortedBy(ranked, RanksBefore)
    requires plans == if |ranked| <= maxCandidates then ranked else ranked[..maxCandidates]
    ensures IsRanking(options, all, costing, plans, maxCandidates)
  {
    hide IsExactCover, VisitsExactly, SignatureOf, RoutesOf, TableFor, Distinct, Listed;
    TableSignatures(options, costing, visited, table);
    forall listing: seq<nat> | IsAssignable(options, all, costing, listing)
      ensures var routes := RoutesOf(options, listing);
              IsRanked(plans, maxCandidates, SignatureOf(routes), costing(multiset(routes)).value.total)
    {
      CoverIsInTable(options, all, costing, visited, table, listing);
      var s := SignatureOf(RoutesOf(options, listing));
      assert table[s] in ranked;
      var k :| 0 <= k < |ranked| && ranked[k] == table[s];
      if k < |plans| {
        assert table[s] in plans;
      } else {
        forall p | p in plans
          ensures p.cost.total <= table[s].cost.total
        {
          var j :| 0 <= j < |plans| && plans[j] == p;
          assert RanksBefore(ranked[j], ranked[k]);
        }
      }
    }
  }

  lemma NothingVisited(options: seq<RouteOption>, costing: Costing)
    ensures TableFor(options, costing, [], map[]) && Costed(options, costing, []) == 0
  {
  }

  lemma CoverIsInTable(options: seq<RouteOption>, all: set<nat>, costing: Costing, visited: seq<seq<nat>>,
      table: Table, listing: seq<nat>)
    requires TableFor(options, costing, visited, table) && VisitsExactly(options, all, [], visited)
    requires forall v | v in visited :: Distinct(v)
    requires IsAssignable(options, all, costing, listing)
    ensures var routes := RoutesOf(options, listing);
            && SignatureOf(routes) in table
            && table[SignatureOf(routes)].cost.total <= costing(multiset(routes)).value.total
  {
    hide IsExactCover, SignatureOf, RoutesOf;
    assert Chosen([]) <= Chosen(listing);
    assert Visits(visited, Chosen(listing)) == 1;
    var k := VisitedOnce(visited, Chosen(listing));
    var v := visited[k];
    assert v in visited;
    ListingsAgree(options, v, listing);
    SignatureWhateverOrder(RoutesOf(options, v), RoutesOf(options, listing));
  }
}
