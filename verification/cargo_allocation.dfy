/** Splitting an order's cargo over physical vehicles: a backtracking bin allocator
    that raises its vehicle limit step by step, and why its verdicts are exact. */
module CargoAllocation {
  import opened Sorting

  datatype Cargo = Cargo(id: nat, length: int, width: int, height: int, weight: int, canRotate: bool) {
    predicate Valid() {
      length > 0 && width > 0 && height > 0 && weight > 0
    }

    function Area(): int {
      length * width
    }
  }

  datatype Vehicle = Vehicle(id: nat, length: int, width: int, height: int, payload: int) {
    predicate Valid() {
      length > 0 && width > 0 && height > 0 && payload > 0
    }

    function Area(): int {
      length * width
    }
  }

  function WeightOf(c: Cargo): int { c.weight }

  function AreaOf(c: Cargo): int { c.Area() }

  // ---------- fitting ----------

  /** The item fits the box, upright, in one of its allowed orientations. */
  predicate FitsBox(c: Cargo, v: Vehicle) {
    && c.height <= v.height
    && ((c.length <= v.length && c.width <= v.width)
        || (c.canRotate && c.width <= v.length && c.length <= v.width))
  }

  predicate CargoFitsVehicle(c: Cargo, v: Vehicle) {
    c.weight <= v.payload && FitsBox(c, v)
  }

  predicate CargoSetFitsVehicle(cargo: seq<Cargo>, v: Vehicle) {
    && (forall k | 0 <= k < |cargo| :: CargoFitsVehicle(cargo[k], v))
    && SumBy(cargo, WeightOf) <= v.payload
    && SumBy(cargo, AreaOf) <= v.Area()
  }

  // ---------- allocations ----------

  /** Entry `i` is the vehicle that takes unit `i`. */
  type Allocation = seq<nat>

  /** The units a vehicle takes, in order. */
  function Contents(cargo: seq<Cargo>, p: Allocation, b: nat): seq<Cargo>
    requires |p| <= |cargo|
  {
    if p == [] then []
    else
      var last := |p| - 1;
      Contents(cargo, p[..last], b) + if p[last] == b then [cargo[last]] else []
  }

  /** What a vehicle takes, measured by weight or by area. */
  function Taken(value: Cargo -> int, cargo: seq<Cargo>, p: Allocation, b: nat): int
    requires |p| <= |cargo|
  {
    if p == [] then 0
    else
      var last := |p| - 1;
      Taken(value, cargo, p[..last], b) + if p[last] == b then value(cargo[last]) else 0
  }

  ghost predicate FitsBin(cargo: seq<Cargo>, p: Allocation, b: nat, v: Vehicle)
    requires |p| <= |cargo|
  {
    && (forall i | 0 <= i < |p| && p[i] == b :: FitsBox(cargo[i], v))
    && Taken(WeightOf, cargo, p, b) <= v.payload
    && Taken(AreaOf, cargo, p, b) <= v.Area()
  }

  /** Every unit so far has a vehicle, and no vehicle is overfull. */
  ghost predicate IsAllocation(cargo: seq<Cargo>, vehicles: seq<Vehicle>, p: Allocation) {
    && |p| <= |cargo|
    && (forall i | 0 <= i < |p| :: p[i] < |vehicles|)
    && forall b | 0 <= b < |vehicles| :: FitsBin(cargo, p, b, vehicles[b])
  }

  ghost predicate IsComplete(cargo: seq<Cargo>, vehicles: seq<Vehicle>, p: Allocation) {
    |p| == |cargo| && IsAllocation(cargo, vehicles, p)
  }

  ghost function Used(p: Allocation): set<nat> {
    set b | b in p
  }

  predicate ValidInput(cargo: seq<Cargo>, vehicles: seq<Vehicle>) {
    (forall c | c in cargo :: c.Valid()) && forall v | v in vehicles :: v.Valid()
  }

  // ---------- sums ----------

  lemma {:induction false} SumByAppend<T>(xs: seq<T>, x: T, value: T -> int)
    ensures SumBy(xs + [x], value) == SumBy(xs, value) + value(x)
  {
    if xs != [] {
      SumByAppend(xs[1..], x, value);
      assert (xs + [x])[1..] == xs[1..] + [x];
    } else {
      assert (xs + [x])[1..] == [];
    }
  }

  lemma {:induction false} ContentsSum(value: Cargo -> int, cargo: seq<Cargo>, p: Allocation, b: nat)
    requires |p| <= |cargo|
    ensures SumBy(Contents(cargo, p, b), value) == Taken(value, cargo, p, b)
  {
    if p == [] {
    } else {
      var last := |p| - 1;
      ContentsSum(value, cargo, p[..last], b);
      SumByAppend(Contents(cargo, p[..last], b), cargo[last], value);
      assert Contents(cargo, p[..last], b) + [] == Contents(cargo, p[..last], b);
    }
  }

  lemma {:induction false} ContentsMembers(cargo: seq<Cargo>, p: Allocation, b: nat)
    requires |p| <= |cargo|
    ensures forall c :: c in Contents(cargo, p, b) <==> exists i :: 0 <= i < |p| && p[i] == b && cargo[i] == c
    ensures Contents(cargo, p, b) == [] <==> b !in Used(p)
  {
    if p == [] {
    } else {
      var last := |p| - 1;
      ContentsMembers(cargo, p[..last], b);
      assert p == p[..last] + [p[last]];
    }
  }

  lemma {:induction false} TakenNonNegative(value: Cargo -> int, cargo: seq<Cargo>, p: Allocation, b: nat)
    requires |p| <= |cargo| && forall c | c in cargo :: value(c) > 0
    ensures Taken(value, cargo, p, b) >= 0
    ensures forall i | 0 <= i < |p| && p[i] == b :: value(cargo[i]) <= Taken(value, cargo, p, b)
    ensures Taken(value, cargo, p, b) == 0 <==> b !in Used(p)
  {
    if p == [] {
    } else {
      var last := |p| - 1;
      TakenNonNegative(value, cargo, p[..last], b);
      assert p == p[..last] + [p[last]];
      assert cargo[last] in cargo;
    }
  }

  lemma PositiveValues(cargo: seq<Cargo>)
    requires forall c | c in cargo :: c.Valid()
    ensures forall c | c in cargo :: WeightOf(c) > 0 && AreaOf(c) > 0
  {
  }

  /** The set test on a vehicle's contents is the same as fitting the bin. */
  lemma ContentsFit(cargo: seq<Cargo>, p: Allocation, b: nat, v: Vehicle)
    requires |p| <= |cargo| && forall c | c in cargo :: c.Valid()
    ensures CargoSetFitsVehicle(Contents(cargo, p, b), v) <==> FitsBin(cargo, p, b, v)
  {
    var items := Contents(cargo, p, b);
    ContentsSum(WeightOf, cargo, p, b);
    ContentsSum(AreaOf, cargo, p, b);
    ContentsMembers(cargo, p, b);
    PositiveValues(cargo);
    TakenNonNegative(WeightOf, cargo, p, b);
    if CargoSetFitsVehicle(items, v) {
      forall i | 0 <= i < |p| && p[i] == b
        ensures FitsBox(cargo[i], v)
      {
        assert cargo[i] in items;
        var k :| 0 <= k < |items| && items[k] == cargo[i];
      }
    }
    if FitsBin(cargo, p, b, v) {
      forall k | 0 <= k < |items|
        ensures CargoFitsVehicle(items[k], v)
      {
        assert items[k] in items;
        var i :| 0 <= i < |p| && p[i] == b && cargo[i] == items[k];
      }
    }
  }

  /** Dropping the last units of an allocation leaves an allocation. */
  lemma {:induction false} PrefixIsAllocation(cargo: seq<Cargo>, vehicles: seq<Vehicle>, p: Allocation, k: nat)
    requires ValidInput(cargo, vehicles) && IsAllocation(cargo, vehicles, p) && k <= |p|
    ensures IsAllocation(cargo, vehicles, p[..k])
    decreases |p| - k
  {
    if k == |p| {
      assert p[..k] == p;
    } else {
      PrefixIsAllocation(cargo, vehicles, p, k + 1);
      assert p[..k + 1][..k] == p[..k];
      assert cargo[k] in cargo && WeightOf(cargo[k]) > 0 && AreaOf(cargo[k]) > 0;
      forall b | 0 <= b < |vehicles|
        ensures FitsBin(cargo, p[..k], b, vehicles[b])
      {
        assert FitsBin(cargo, p[..k + 1], b, vehicles[b]);
        assert forall i | 0 <= i < k :: p[..k][i] == p[..k + 1][i];
      }
    }
  }

  // ---------- equivalent bins ----------

  function Swapped(b: nat, x: nat, y: nat): nat {
    if b == x then y else if b == y then x else b
  }

  /** Exchange the roles of two bins from unit `k` on. */
  ghost function SwapFrom(p: Allocation, k: nat, x: nat, y: nat): (q: Allocation)
    ensures |q| == |p|
  {
    seq(|p|, i requires 0 <= i < |p| => if i < k then p[i] else Swapped(p[i], x, y))
  }

  /** Two bins with the same box and the same remaining weight and area. */
  ghost predicate SameSignature(cargo: seq<Cargo>, vehicles: seq<Vehicle>, p: Allocation, x: nat, y: nat)
    requires |p| <= |cargo| && x < |vehicles| && y < |vehicles|
  {
    var v, w := vehicles[x], vehicles[y];
    && v.length == w.length && v.width == w.width && v.height == w.height
    && v.payload - Taken(WeightOf, cargo, p, x) == w.payload - Taken(WeightOf, cargo, p, y)
    && v.Area() - Taken(AreaOf, cargo, p, x) == w.Area() - Taken(AreaOf, cargo, p, y)
  }

  lemma {:induction false} SwapTaken(value: Cargo -> int, cargo: seq<Cargo>, p: Allocation, k: nat, x: nat, y: nat,
      b: nat)
    requires k <= |p| <= |cargo|
    ensures Taken(value, cargo, SwapFrom(p, k, x, y), b) - Taken(value, cargo, p[..k], b)
            == Taken(value, cargo, p, Swapped(b, x, y)) - Taken(value, cargo, p[..k], Swapped(b, x, y))
  {
    var q := SwapFrom(p, k, x, y);
    if k == |p| {
      assert q == p && p[..k] == p;
    } else {
      var last := |p| - 1;
      SwapTaken(value, cargo, p[..last], k, x, y, b);
      assert q[..last] == SwapFrom(p[..last], k, x, y);
      assert p[..last][..k] == p[..k];
    }
  }

  lemma SwapFitsBin(cargo: seq<Cargo>, vehicles: seq<Vehicle>, p: Allocation, k: nat, x: nat, y: nat, b: nat)
    requires ValidInput(cargo, vehicles) && IsAllocation(cargo, vehicles, p)
    requires k <= |p| && x < |vehicles| && y < |vehicles| && b < |vehicles|
    requires SameSignature(cargo, vehicles, p[..k], x, y)
    ensures FitsBin(cargo, SwapFrom(p, k, x, y), b, vehicles[b])
  {
    hide Cargo.Valid, Vehicle.Valid, ValidInput, FitsBox, Vehicle.Area;
    var q, a := SwapFrom(p, k, x, y), Swapped(b, x, y);
    SwapTaken(WeightOf, cargo, p, k, x, y, b);
    SwapTaken(AreaOf, cargo, p, k, x, y, b);
    assert FitsBin(cargo, p, a, vehicles[a]) && FitsBin(cargo, p, b, vehicles[b]);
    forall i | 0 <= i < |q| && q[i] == b
      ensures FitsBox(cargo[i], vehicles[b])
    {
      if i >= k {
        assert p[i] == a;
        SameBoxFits(cargo[i], vehicles[a], vehicles[b]);
      }
    }
  }

  lemma SameBoxFits(c: Cargo, v: Vehicle, w: Vehicle)
    requires v.length == w.length && v.width == w.width && v.height == w.height
    ensures FitsBox(c, v) <==> FitsBox(c, w)
  {
  }

  lemma {:induction false} SwapCount(s: set<nat>, x: nat, y: nat)
    ensures |set b | b in s :: Swapped(b, x, y)| == |s|
    decreases |s|
  {
    var t := set b | b in s :: Swapped(b, x, y);
    if s == {} {
      assert t == {};
    } else {
      var b :| b in s;
      var rest := set c | c in s - {b} :: Swapped(c, x, y);
      SwapCount(s - {b}, x, y);
      assert t == rest + {Swapped(b, x, y)};
      assert Swapped(b, x, y) !in rest;
    }
  }

  lemma SameUse(cargo: seq<Cargo>, vehicles: seq<Vehicle>, p: Allocation, x: nat, y: nat)
    requires ValidInput(cargo, vehicles) && |p| <= |cargo| && x < |vehicles| && y < |vehicles|
    requires SameSignature(cargo, vehicles, p, x, y)
    ensures x in Used(p) <==> y in Used(p)
  {
    PositiveValues(cargo);
    TakenNonNegative(AreaOf, cargo, p, x);
    TakenNonNegative(AreaOf, cargo, p, y);
  }

  /** The swap argument: a completion through one of two equivalent bins becomes a
      completion through the other, on as many vehicles. */
  lemma EquivalentBinsExchange(cargo: seq<Cargo>, vehicles: seq<Vehicle>, p: Allocation, k: nat, x: nat, y: nat)
    requires ValidInput(cargo, vehicles) && IsComplete(cargo, vehicles, p)
    requires k < |p| && x < |vehicles| && p[k] == y
    requires SameSignature(cargo, vehicles, p[..k], x, y)
    ensures var q := SwapFrom(p, k, x, y);
            && IsComplete(cargo, vehicles, q)
            && q[..k] == p[..k] && q[k] == x
            && |Used(q)| == |Used(p)|
  {
    hide FitsBin, SameSignature, ValidInput;
    var q := SwapFrom(p, k, x, y);
    forall b | 0 <= b < |vehicles|
      ensures FitsBin(cargo, q, b, vehicles[b])
    {
      SwapFitsBin(cargo, vehicles, p, k, x, y, b);
    }
    SameUse(cargo, vehicles, p[..k], x, y);
    SwapUses(p, k, x, y);
    SwapCount(Used(p), x, y);
  }

  lemma SwapUses(p: Allocation, k: nat, x: nat, y: nat)
    requires k <= |p| && (x in Used(p[..k]) <==> y in Used(p[..k]))
    ensures Used(SwapFrom(p, k, x, y)) == set b | b in Used(p) :: Swapped(b, x, y)
  {
    var q, t := SwapFrom(p, k, x, y), set b | b in Used(p) :: Swapped(b, x, y);
    forall i | 0 <= i < |q|
      ensures q[i] in t
    {
      assert p[i] in Used(p);
      if i < k {
        assert p[i] in p[..k];
        SwapStays(p, k, x, y, p[i]);
      }
    }
    forall b | b in Used(p)
      ensures Swapped(b, x, y) in Used(q)
    {
      var i :| 0 <= i < |p| && p[i] == b;
      if i < k {
        assert b in p[..k];
        SwapStays(p, k, x, y, b);
        var j :| 0 <= j < k && p[j] == Swapped(b, x, y);
        assert q[j] == p[j];
      } else {
        assert q[i] == Swapped(b, x, y);
      }
    }
  }

  lemma SwapStays(p: Allocation, k: nat, x: nat, y: nat, b: nat)
    requires k <= |p| && (x in Used(p[..k]) <==> y in Used(p[..k])) && b in p[..k]
    ensures Swapped(b, x, y) in p[..k] && Swapped(b, x, y) in Used(p)
    ensures Swapped(Swapped(b, x, y), x, y) == b
  {
    assert b in Used(p[..k]);
    assert Swapped(b, x, y) in Used(p[..k]);
  }

  // ---------- the lower bound on vehicles ----------

  function PrefixSum(xs: seq<int>, k: nat): int
    requires k <= |xs|
  {
    if k == 0 then 0 else PrefixSum(xs, k - 1) + xs[k - 1]
  }

  /** The sum of the entries whose index is chosen. */
  ghost function ChosenSum(xs: seq<int>, chosen: set<nat>): int {
    if xs == [] then 0
    else
      var last := |xs| - 1;
      ChosenSum(xs[..last], chosen) + if last in chosen then xs[last] else 0
  }

  ghost function ChosenCount(n: nat, chosen: set<nat>): nat {
    if n == 0 then 0 else ChosenCount(n - 1, chosen) + if n - 1 in chosen then 1 else 0
  }

  lemma {:induction false} ChosenCountIsSize(n: nat, chosen: set<nat>)
    requires forall b | b in chosen :: b < n
    ensures ChosenCount(n, chosen) == |chosen|
  {
    if n == 0 {
      assert chosen == {};
    } else if n - 1 in chosen {
      ChosenCountIsSize(n - 1, chosen - {n - 1});
      ChosenCountIgnores(n - 1, chosen, n - 1);
    } else {
      ChosenCountIsSize(n - 1, chosen);
    }
  }

  lemma {:induction false} ChosenCountIgnores(n: nat, chosen: set<nat>, b: nat)
    requires b >= n
    ensures ChosenCount(n, chosen) == ChosenCount(n, chosen - {b})
  {
    if n == 0 {
    } else {
      ChosenCountIgnores(n - 1, chosen, b);
    }
  }

  /** `n` times `t`, by repeated addition. */
  ghost function Repeated(n: nat, t: int): int {
    if n == 0 then 0 else Repeated(n - 1, t) + t
  }

  function Above(t: int): int -> int {
    x => if x > t then x - t else 0
  }

  function Descending(a: int, b: int): bool { a >= b }

  lemma {:induction false} ChosenUnderThreshold(xs: seq<int>, chosen: set<nat>, t: int)
    ensures ChosenSum(xs, chosen) <= SumBy(xs, Above(t)) + Repeated(ChosenCount(|xs|, chosen), t)
  {
    if xs == [] {
    } else {
      var last := |xs| - 1;
      ChosenUnderThreshold(xs[..last], chosen, t);
      SumByAppend(xs[..last], xs[last], Above(t));
      assert xs == xs[..last] + [xs[last]];
    }
  }

  lemma {:induction false} SortedAboveThreshold(xs: seq<int>, n: nat, k: nat)
    requires SortedBy(xs, Descending) && 0 < k <= |xs| && n <= |xs|
    ensures SumBy(xs[..n], Above(xs[k - 1])) ==
            if n <= k then PrefixSum(xs, n) - Repeated(n, xs[k - 1]) else PrefixSum(xs, k) - Repeated(k, xs[k - 1])
  {
    var t := xs[k - 1];
    if n == 0 {
      assert xs[..n] == [];
    } else {
      SortedAboveThreshold(xs, n - 1, k);
      SumByAppend(xs[..n - 1], xs[n - 1], Above(t));
      assert xs[..n] == xs[..n - 1] + [xs[n - 1]];
      if n - 1 < k - 1 { assert Descending(xs[n - 1], xs[k - 1]); }
      if k - 1 < n - 1 { assert Descending(xs[k - 1], xs[n - 1]); }
    }
  }

  /** No choice of `k` capacities exceeds the `k` largest. */
  lemma ChosenAtMostLargest(capacities: seq<int>, chosen: set<nat>)
    requires forall b | b in chosen :: b < |capacities|
    ensures |chosen| <= |capacities|
    ensures ChosenSum(capacities, chosen) <= PrefixSum(SortBy(capacities, Descending), |chosen|)
  {
    var n, k := |capacities|, |chosen|;
    var sorted := SortBy(capacities, Descending);
    ChosenCountIsSize(n, chosen);
    CountAtMost(n, chosen);
    if k == 0 {
      NothingChosen(capacities, chosen);
    } else {
      SortBySorted(capacities, Descending);
      var t := sorted[k - 1];
      ChosenUnderThreshold(capacities, chosen, t);
      SortBySum(capacities, Descending, Above(t));
      SortedAboveThreshold(sorted, n, k);
      assert sorted[..n] == sorted;
    }
  }

  lemma {:induction false} CountAtMost(n: nat, chosen: set<nat>)
    ensures ChosenCount(n, chosen) <= n
  {
    if n == 0 {
    } else {
      CountAtMost(n - 1, chosen);
    }
  }

  lemma {:induction false} NothingChosen(xs: seq<int>, chosen: set<nat>)
    requires chosen == {}
    ensures ChosenSum(xs, chosen) == 0
  {
    if xs == [] {
    } else {
      NothingChosen(xs[..|xs| - 1], chosen);
    }
  }

  lemma FewerAreTooSmall(capacities: seq<int>, required: int, count: nat)
    requires forall k | 0 <= k < |capacities| :: capacities[k] >= 0
    requires forall k | 0 < k < count && k <= |capacities| :: PrefixSum(SortBy(capacities, Descending), k) < required
    ensures forall chosen: set<nat> | (forall b | b in chosen :: b < |capacities|) && chosen != {}
                                      && ChosenSum(capacities, chosen) >= required :: |chosen| >= count
  {
    forall chosen: set<nat> | (forall b | b in chosen :: b < |capacities|) && chosen != {}
                              && ChosenSum(capacities, chosen) >= required
      ensures |chosen| >= count
    {
      ChosenAtMostLargest(capacities, chosen);
    }
  }

  /** Any choice of vehicles whose capacities cover the total has at least `count`
      members, and `count` of the largest do cover it if the whole fleet does. */
  method MinimumBinCountForTotal(required: int, capacities: seq<int>) returns (count: nat)
    requires forall k | 0 <= k < |capacities| :: capacities[k] >= 0
    ensures 1 <= count <= |capacities| + 1
    ensures forall chosen: set<nat> | (forall b | b in chosen :: b < |capacities|) && chosen != {}
                                      && ChosenSum(capacities, chosen) >= required :: |chosen| >= count
    ensures count <= |capacities| ==> PrefixSum(SortBy(capacities, Descending), count) >= required
  {
    var accumulated := 0;
    var sorted := SortBy(capacities, Descending);
    for index := 0 to |sorted|
      invariant accumulated == PrefixSum(sorted, index)
      invariant forall k | 0 < k <= index :: PrefixSum(sorted, k) < required
    {
      accumulated := accumulated + sorted[index];
      if accumulated >= required {
        count := index + 1;
        FewerAreTooSmall(capacities, required, count);
        return;
      }
    }
    count := |sorted| + 1;
    FewerAreTooSmall(capacities, required, count);
  }

  // ---------- what an allocation takes in all ----------

  ghost function TakenByAll(value: Cargo -> int, cargo: seq<Cargo>, p: Allocation, n: nat): int
    requires |p| <= |cargo|
  {
    if n == 0 then 0 else TakenByAll(value, cargo, p, n - 1) + Taken(value, cargo, p, n - 1)
  }

  lemma {:induction false} TakenByAllStep(value: Cargo -> int, cargo: seq<Cargo>, p: Allocation, n: nat)
    requires 0 < |p| <= |cargo|
    ensures var last := |p| - 1;
            TakenByAll(value, cargo, p, n) ==
            TakenByAll(value, cargo, p[..last], n) + if p[last] < n then value(cargo[last]) else 0
  {
    if n == 0 {
    } else {
      TakenByAllStep(value, cargo, p, n - 1);
    }
  }

  lemma {:induction false} NothingTaken(value: Cargo -> int, cargo: seq<Cargo>, n: nat)
    ensures TakenByAll(value, cargo, [], n) == 0
  {
    if n == 0 {
    } else {
      NothingTaken(value, cargo, n - 1);
    }
  }

  lemma {:induction false} TakenByAllIsTotal(value: Cargo -> int, cargo: seq<Cargo>, p: Allocation, n: nat)
    requires |p| <= |cargo| && forall i | 0 <= i < |p| :: p[i] < n
    ensures TakenByAll(value, cargo, p, n) == SumBy(cargo[..|p|], value)
  {
    if p == [] {
      NothingTaken(value, cargo, n);
    } else {
      var last := |p| - 1;
      TakenByAllIsTotal(value, cargo, p[..last], n);
      TakenByAllStep(value, cargo, p, n);
      SumByAppend(cargo[..last], cargo[last], value);
      assert cargo[..|p|] == cargo[..last] + [cargo[last]];
    }
  }

  lemma {:induction false} TakenWithinCapacity(value: Cargo -> int, cargo: seq<Cargo>, p: Allocation,
      capacities: seq<int>, n: nat)
    requires |p| <= |cargo| && n <= |capacities| && forall c | c in cargo :: value(c) > 0
    requires forall b | 0 <= b < n :: Taken(value, cargo, p, b) <= capacities[b]
    ensures TakenByAll(value, cargo, p, n) <= ChosenSum(capacities[..n], Used(p))
  {
    if n == 0 {
    } else {
      TakenWithinCapacity(value, cargo, p, capacities, n - 1);
      TakenNonNegative(value, cargo, p, n - 1);
      assert capacities[..n][..n - 1] == capacities[..n - 1];
    }
  }

  function Payloads(vehicles: seq<Vehicle>): (xs: seq<int>)
    ensures |xs| == |vehicles|
  {
    seq(|vehicles|, k requires 0 <= k < |vehicles| => vehicles[k].payload)
  }

  function Floors(vehicles: seq<Vehicle>): (xs: seq<int>)
    ensures |xs| == |vehicles|
  {
    seq(|vehicles|, k requires 0 <= k < |vehicles| => vehicles[k].Area())
  }

  /** The vehicles used by a complete allocation can carry and hold all the cargo. */
  lemma UsedVehiclesSuffice(cargo: seq<Cargo>, vehicles: seq<Vehicle>, p: Allocation)
    requires ValidInput(cargo, vehicles) && IsComplete(cargo, vehicles, p)
    ensures SumBy(cargo, WeightOf) <= ChosenSum(Payloads(vehicles), Used(p))
    ensures SumBy(cargo, AreaOf) <= ChosenSum(Floors(vehicles), Used(p))
    ensures forall b | b in Used(p) :: b < |vehicles|
  {
    var n := |vehicles|;
    PositiveValues(cargo);
    TakenByAllIsTotal(WeightOf, cargo, p, n);
    TakenByAllIsTotal(AreaOf, cargo, p, n);
    assert forall b | 0 <= b < n :: FitsBin(cargo, p, b, vehicles[b]);
    TakenWithinCapacity(WeightOf, cargo, p, Payloads(vehicles), n);
    TakenWithinCapacity(AreaOf, cargo, p, Floors(vehicles), n);
    assert Payloads(vehicles)[..n] == Payloads(vehicles) && Floors(vehicles)[..n] == Floors(vehicles);
    assert cargo[..|p|] == cargo;
  }

  lemma {:induction false} ChosenAtMostAll(xs: seq<int>, chosen: set<nat>)
    requires forall k | 0 <= k < |xs| :: xs[k] >= 0
    ensures ChosenSum(xs, chosen) <= SumBy(xs, x => x)
  {
    if xs == [] {
    } else {
      var last := |xs| - 1;
      ChosenAtMostAll(xs[..last], chosen);
      SumByAppend(xs[..last], xs[last], x => x);
      assert xs == xs[..last] + [xs[last]];
    }
  }
}
