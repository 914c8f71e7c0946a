/** The allocator itself, proved exact and minimal against an order-free description
    of a split. */
module CargoAllocator {
  import opened Prelude
  import opened Sorting
  import opened CargoAllocation

  const MAX_CARGO_ALLOCATION_STATES := 250_000

  datatype VehicleBin = VehicleBin(vehicle: Vehicle, items: seq<Cargo>)

  datatype AllocationResult = Solved(bins: seq<VehicleBin>) | Infeasible | SearchLimit

  // ---------- what a split is, whatever the order ----------

  function AllItems(bins: seq<VehicleBin>): seq<Cargo> {
    if bins == [] then [] else bins[0].items + AllItems(bins[1..])
  }

  function VehiclesOf(bins: seq<VehicleBin>): (vs: seq<Vehicle>)
    ensures |vs| == |bins| && forall k | 0 <= k < |bins| :: vs[k] == bins[k].vehicle
  {
    seq(|bins|, k requires 0 <= k < |bins| => bins[k].vehicle)
  }

  function OpenOne(bin: VehicleBin): int { if bin.items == [] then 0 else 1 }

  /** How many vehicles a split opens. */
  function OpenCount(bins: seq<VehicleBin>): int {
    SumBy(bins, OpenOne)
  }

  /** Each vehicle once, each unit exactly once, and every load fits its vehicle. */
  ghost predicate IsSplit(bins: seq<VehicleBin>, cargo: seq<Cargo>, vehicles: seq<Vehicle>) {
    && multiset(VehiclesOf(bins)) == multiset(vehicles)
    && multiset(AllItems(bins)) == multiset(cargo)
    && forall k | 0 <= k < |bins| :: CargoSetFitsVehicle(bins[k].items, bins[k].vehicle)
  }

  // ---------- splits and allocations describe the same thing ----------

  lemma ItemsFirst(bins: seq<VehicleBin>)
    requires bins != []
    ensures multiset(AllItems(bins)) == multiset(bins[0].items) + multiset(AllItems(bins[1..]))
  {
  }

  lemma {:induction false} AllItemsRemove(bins: seq<VehicleBin>, j: nat)
    requires j < |bins|
    ensures multiset(AllItems(bins)) == multiset(AllItems(RemoveAt(bins, j))) + multiset(bins[j].items)
  {
    hide AllItems;
    ItemsFirst(bins);
    if j == 0 {
      assert RemoveAt(bins, 0) == bins[1..];
    } else {
      var shorter := RemoveAt(bins, j);
      AllItemsRemove(bins[1..], j - 1);
      assert shorter[0] == bins[0] && shorter[1..] == RemoveAt(bins[1..], j - 1);
      ItemsFirst(shorter);
    }
  }

  /** The same bins as far as vehicles, units and opened vehicles go. */
  ghost predicate SameBins(bins: seq<VehicleBin>, arranged: seq<VehicleBin>) {
    && multiset(AllItems(arranged)) == multiset(AllItems(bins))
    && OpenCount(arranged) == OpenCount(bins)
    && forall b | b in arranged :: b in bins
  }

  /** The bins of a split can be listed in any order of the vehicles. */
  lemma {:induction false} Arrange(bins: seq<VehicleBin>, vehicles: seq<Vehicle>) returns (arranged: seq<VehicleBin>)
    requires multiset(VehiclesOf(bins)) == multiset(vehicles)
    ensures VehiclesOf(arranged) == vehicles && SameBins(bins, arranged)
    decreases |vehicles|
  {
    if vehicles == [] {
      assert |bins| == |multiset(VehiclesOf(bins))|;
      arranged := [];
    } else {
      hide SameBins;
      var j := BinOf(bins, vehicles);
      var tail := Arrange(RemoveAt(bins, j), vehicles[1..]);
      arranged := [bins[j]] + tail;
      BinInFront(bins, j, tail);
    }
  }

  lemma BinInFront(bins: seq<VehicleBin>, j: nat, tail: seq<VehicleBin>)
    requires j < |bins| && SameBins(RemoveAt(bins, j), tail)
    requires forall b | b in RemoveAt(bins, j) :: b in bins
    ensures SameBins(bins, [bins[j]] + tail)
  {
    hide AllItems;
    var arranged := [bins[j]] + tail;
    assert arranged[1..] == tail;
    AllItemsRemove(bins, j);
    SumByRemove(bins, j, OpenOne);
    ItemsFirst(arranged);
  }

  /** A bin with the first of the vehicles; without it the others match the rest. */
  lemma BinOf(bins: seq<VehicleBin>, vehicles: seq<Vehicle>) returns (j: nat)
    requires multiset(VehiclesOf(bins)) == multiset(vehicles) && vehicles != []
    ensures j < |bins| && bins[j].vehicle == vehicles[0]
    ensures multiset(VehiclesOf(RemoveAt(bins, j))) == multiset(vehicles[1..])
    ensures forall b | b in RemoveAt(bins, j) :: b in bins
  {
    assert vehicles[0] in multiset(VehiclesOf(bins));
    j :| 0 <= j < |VehiclesOf(bins)| && VehiclesOf(bins)[j] == vehicles[0];
    assert VehiclesOf(RemoveAt(bins, j)) == RemoveAt(VehiclesOf(bins), j);
    RemoveHeadAndMatch(vehicles, VehiclesOf(bins), j);
  }

  function Loads(bins: seq<VehicleBin>): (loads: seq<seq<Cargo>>)
    ensures |loads| == |bins| && forall k | 0 <= k < |bins| :: loads[k] == bins[k].items
  {
    seq(|bins|, k requires 0 <= k < |bins| => bins[k].items)
  }

  function Flat(loads: seq<seq<Cargo>>): seq<Cargo> {
    if loads == [] then [] else loads[0] + Flat(loads[1..])
  }

  lemma {:induction false} FlatIsAllItems(bins: seq<VehicleBin>)
    ensures Flat(Loads(bins)) == AllItems(bins)
  {
    if bins == [] {
    } else {
      FlatIsAllItems(bins[1..]);
      assert Loads(bins)[1..] == Loads(bins[1..]);
    }
  }

  lemma {:induction false} FlatMember(loads: seq<seq<Cargo>>, c: Cargo) returns (b: nat, j: nat)
    requires c in Flat(loads)
    ensures b < |loads| && j < |loads[b]| && loads[b][j] == c
  {
    if c in loads[0] {
      b := 0;
      j :| 0 <= j < |loads[0]| && loads[0][j] == c;
    } else {
      b, j := FlatMember(loads[1..], c);
      b := b + 1;
    }
  }

  lemma {:induction false} FlatTake(loads: seq<seq<Cargo>>, b: nat, j: nat)
    requires b < |loads| && j < |loads[b]|
    ensures multiset(Flat(loads)) == multiset(Flat(loads[b := RemoveAt(loads[b], j)])) + multiset{loads[b][j]}
  {
    var shorter := loads[b := RemoveAt(loads[b], j)];
    if b == 0 {
      assert loads[0] == loads[0][..j] + [loads[0][j]] + loads[0][j + 1..];
      assert shorter[1..] == loads[1..];
    } else {
      FlatTake(loads[1..], b - 1, j);
      assert shorter[1..] == loads[1..][b - 1 := RemoveAt(loads[b], j)];
    }
  }

  /** Deal listed cargo to the bins so that each gets what its load holds. */
  lemma {:induction false} Deal(cargo: seq<Cargo>, loads: seq<seq<Cargo>>) returns (p: Allocation)
    requires multiset(Flat(loads)) == multiset(cargo)
    ensures |p| == |cargo| && forall i | 0 <= i < |p| :: p[i] < |loads|
    ensures forall b | 0 <= b < |loads| :: multiset(Contents(cargo, p, b)) == multiset(loads[b])
    decreases |cargo|
  {
    hide Contents, Flat;
    if cargo == [] {
      p := [];
      NothingToDeal(loads);
    } else {
      var last := |cargo| - 1;
      var c, front := cargo[last], cargo[..last];
      assert cargo == front + [c];
      assert c in multiset(Flat(loads));
      var b, j := FlatMember(loads, c);
      var rest := loads[b := RemoveAt(loads[b], j)];
      FlatTake(loads, b, j);
      CancelOne(multiset(Flat(rest)), multiset(front), c);
      var q := Deal(front, rest);
      p := q + [b];
      assert p[..last] == q;
      forall a | 0 <= a < |loads|
        ensures multiset(Contents(cargo, p, a)) == multiset(loads[a])
      {
        ContentsIgnoresRest(front, cargo, q, a);
        DealtOne(cargo, p, loads, b, j, a);
      }
    }
  }

  lemma NothingToDeal(loads: seq<seq<Cargo>>)
    requires multiset(Flat(loads)) == multiset{}
    ensures forall b | 0 <= b < |loads| :: multiset(Contents([], [], b)) == multiset(loads[b])
  {
    assert |Flat(loads)| == |multiset(Flat(loads))|;
    forall b | 0 <= b < |loads|
      ensures loads[b] == []
    {
      NoLongerThanFlat(loads, b);
    }
  }

  lemma {:induction false} NoLongerThanFlat(loads: seq<seq<Cargo>>, b: nat)
    requires b < |loads|
    ensures |loads[b]| <= |Flat(loads)|
  {
    if b == 0 {
    } else {
      NoLongerThanFlat(loads[1..], b - 1);
    }
  }

  lemma DealtOne(cargo: seq<Cargo>, p: Allocation, loads: seq<seq<Cargo>>, b: nat, j: nat, a: nat)
    requires |p| == |cargo| > 0 && p[|p| - 1] == b && b < |loads| && j < |loads[b]| && a < |loads|
    requires loads[b][j] == cargo[|p| - 1]
    requires multiset(Contents(cargo, p[..|p| - 1], a)) == multiset(loads[b := RemoveAt(loads[b], j)][a])
    ensures multiset(Contents(cargo, p, a)) == multiset(loads[a])
  {
    RemoveAtMultiset(loads[b], j);
  }

  lemma {:induction false} ContentsIgnoresRest(front: seq<Cargo>, cargo: seq<Cargo>, p: Allocation, b: nat)
    requires front <= cargo && |p| <= |front|
    ensures Contents(front, p, b) == Contents(cargo, p, b)
  {
    if p == [] {
    } else {
      ContentsIgnoresRest(front, cargo, p[..|p| - 1], b);
    }
  }

  lemma FitsWhateverOrder(a: seq<Cargo>, b: seq<Cargo>, v: Vehicle)
    requires multiset(a) == multiset(b) && CargoSetFitsVehicle(b, v)
    ensures CargoSetFitsVehicle(a, v)
  {
    SumByMultiset(a, b, WeightOf);
    SumByMultiset(a, b, AreaOf);
    forall k | 0 <= k < |a|
      ensures CargoFitsVehicle(a[k], v)
    {
      assert a[k] in multiset(b);
      var j :| 0 <= j < |b| && b[j] == a[k];
    }
  }

  lemma {:induction false} OpenCountIsUsed(bins: seq<VehicleBin>, cargo: seq<Cargo>, p: Allocation, n: nat)
    requires |p| <= |cargo| && n <= |bins|
    requires forall b | 0 <= b < |bins| :: multiset(bins[b].items) == multiset(Contents(cargo, p, b))
    ensures OpenCount(bins[..n]) == ChosenCount(n, Used(p))
  {
    if n == 0 {
      assert bins[..0] == [];
    } else {
      OpenCountIsUsed(bins, cargo, p, n - 1);
      SumByAppend(bins[..n - 1], bins[n - 1], OpenOne);
      assert bins[..n] == bins[..n - 1] + [bins[n - 1]];
      ContentsMembers(cargo, p, n - 1);
      assert |multiset(bins[n - 1].items)| == |bins[n - 1].items|;
      assert |multiset(Contents(cargo, p, n - 1))| == |Contents(cargo, p, n - 1)|;
    }
  }

  /** Every split of the cargo is a complete allocation of it, listed in any order. */
  lemma SplitGivesAllocation(bins: seq<VehicleBin>, cargo: seq<Cargo>, vehicles: seq<Vehicle>, listed: seq<Cargo>,
      fleet: seq<Vehicle>)
    returns (p: Allocation)
    requires IsSplit(bins, cargo, vehicles)
    requires multiset(listed) == multiset(cargo) && multiset(fleet) == multiset(vehicles)
    requires ValidInput(listed, fleet)
    ensures IsComplete(listed, fleet, p) && |Used(p)| == OpenCount(bins)
  {
    var arranged := Arrange(bins, fleet);
    FlatIsAllItems(arranged);
    p := Deal(listed, Loads(arranged));
    forall b | 0 <= b < |fleet|
      ensures FitsBin(listed, p, b, fleet[b])
    {
      assert arranged[b] in bins;
      var k :| 0 <= k < |bins| && bins[k] == arranged[b];
      assert VehiclesOf(arranged)[b] == fleet[b];
      FitsWhateverOrder(Contents(listed, p, b), arranged[b].items, fleet[b]);
      ContentsFit(listed, p, b, fleet[b]);
    }
    OpenCountIsUsed(arranged, listed, p, |arranged|);
    assert arranged[..|arranged|] == arranged;
    assert forall b | b in Used(p) :: b < |fleet|;
    ChosenCountIsSize(|fleet|, Used(p));
  }

  function BinsOf(fleet: seq<Vehicle>, items: seq<seq<Cargo>>): (bins: seq<VehicleBin>)
    requires |items| == |fleet|
    ensures |bins| == |fleet| && forall b | 0 <= b < |fleet| :: bins[b] == VehicleBin(fleet[b], items[b])
  {
    seq(|fleet|, b requires 0 <= b < |fleet| => VehicleBin(fleet[b], items[b]))
  }

  lemma ContentsGrow(cargo: seq<Cargo>, p: Allocation, b: nat)
    requires 0 < |p| <= |cargo|
    ensures var last := |p| - 1;
            Contents(cargo, p, b) == if p[last] == b then Contents(cargo, p[..last], b) + [cargo[last]]
                                     else Contents(cargo, p[..last], b)
  {
    assert Contents(cargo, p[..|p| - 1], b) + [] == Contents(cargo, p[..|p| - 1], b);
  }

  lemma FlatGrow(shorter: seq<seq<Cargo>>, loads: seq<seq<Cargo>>, b: nat, c: Cargo)
    requires b < |loads| == |shorter| && loads == shorter[b := shorter[b] + [c]]
    ensures multiset(Flat(loads)) == multiset(Flat(shorter)) + multiset{c}
  {
    hide Flat;
    var j := |shorter[b]|;
    assert RemoveAt(loads[b], j) == shorter[b];
    assert loads[b := RemoveAt(loads[b], j)] == shorter;
    FlatTake(loads, b, j);
  }

  lemma {:induction false} ContentsHoldAll(cargo: seq<Cargo>, p: Allocation, loads: seq<seq<Cargo>>)
    requires |p| <= |cargo| && forall i | 0 <= i < |p| :: p[i] < |loads|
    requires forall b | 0 <= b < |loads| :: loads[b] == Contents(cargo, p, b)
    ensures multiset(Flat(loads)) == multiset(cargo[..|p|])
    decreases |p|
  {
    hide Flat;
    if p == [] {
      AllEmpty(loads);
    } else {
      hide Contents;
      var last := |p| - 1;
      var b, c := p[last], cargo[last];
      var shorter := loads[b := Contents(cargo, p[..last], b)];
      forall a | 0 <= a < |loads|
        ensures shorter[a] == Contents(cargo, p[..last], a)
      {
        ContentsGrow(cargo, p, a);
      }
      ContentsHoldAll(cargo, p[..last], shorter);
      ContentsGrow(cargo, p, b);
      FlatGrow(shorter, loads, b, c);
      assert cargo[..|p|] == cargo[..last] + [c];
      assert p[..last] == p[..|p| - 1] && cargo[..last] == cargo[..|p[..last]|];
    }
  }

  lemma {:induction false} AllEmpty(loads: seq<seq<Cargo>>)
    requires forall b | 0 <= b < |loads| :: loads[b] == []
    ensures Flat(loads) == []
  {
    if loads == [] {
    } else {
      AllEmpty(loads[1..]);
    }
  }

  /** A complete allocation, read off the bins, is a split. */
  lemma AllocationGivesSplit(cargo: seq<Cargo>, vehicles: seq<Vehicle>, listed: seq<Cargo>, fleet: seq<Vehicle>,
      p: Allocation, items: seq<seq<Cargo>>)
    requires multiset(listed) == multiset(cargo) && multiset(fleet) == multiset(vehicles)
    requires ValidInput(listed, fleet) && IsComplete(listed, fleet, p)
    requires |items| == |fleet| && forall b | 0 <= b < |fleet| :: items[b] == Contents(listed, p, b)
    ensures IsSplit(BinsOf(fleet, items), cargo, vehicles)
    ensures OpenCount(BinsOf(fleet, items)) == |Used(p)|
  {
    var bins := BinsOf(fleet, items);
    assert VehiclesOf(bins) == fleet;
    FlatIsAllItems(bins);
    assert Loads(bins) == items;
    ContentsHoldAll(listed, p, items);
    assert listed[..|p|] == listed;
    forall b | 0 <= b < |bins|
      ensures CargoSetFitsVehicle(bins[b].items, bins[b].vehicle)
    {
      assert FitsBin(listed, p, b, fleet[b]);
      ContentsFit(listed, p, b, fleet[b]);
    }
    OpenCountIsUsed(bins, listed, p, |bins|);
    assert bins[..|bins|] == bins;
    assert forall b | b in Used(p) :: b < |fleet|;
    ChosenCountIsSize(|fleet|, Used(p));
  }

  // ---------- the search ----------

  datatype Signature = Signature(length: int, width: int, height: int, remainingWeight: int, remainingArea: int)

  function Count(items: seq<seq<Cargo>>): nat {
    if items == [] then 0
    else Count(items[..|items| - 1]) + if items[|items| - 1] != [] then 1 else 0
  }

  /** Only completions that open more than `limit` vehicles extend this allocation. */
  ghost predicate NoCompletion(cargo: seq<Cargo>, fleet: seq<Vehicle>, p: Allocation, limit: nat) {
    forall q: Allocation | IsComplete(cargo, fleet, q) && p <= q :: |Used(q)| > limit
  }

  lemma {:induction false} CountIsUsed(cargo: seq<Cargo>, p: Allocation, items: seq<seq<Cargo>>)
    requires |p| <= |cargo| && forall b | 0 <= b < |items| :: items[b] == Contents(cargo, p, b)
    ensures Count(items) == ChosenCount(|items|, Used(p))
  {
    if items == [] {
    } else {
      CountIsUsed(cargo, p, items[..|items| - 1]);
      ContentsMembers(cargo, p, |items| - 1);
    }
  }

  /** A failure through one bin holds for every bin with the same signature. */
  lemma EquivalentBinFails(cargo: seq<Cargo>, fleet: seq<Vehicle>, p: Allocation, limit: nat, x: nat, y: nat)
    requires ValidInput(cargo, fleet) && |p| < |cargo| && x < |fleet| && y < |fleet|
    requires SameSignature(cargo, fleet, p, x, y)
    requires NoCompletion(cargo, fleet, p + [x], limit)
    ensures NoCompletion(cargo, fleet, p + [y], limit)
  {
    forall q: Allocation | IsComplete(cargo, fleet, q) && p + [y] <= q
      ensures |Used(q)| > limit
    {
      assert q[..|p|] == p && q[|p|] == y;
      EquivalentBinsExchange(cargo, fleet, q, |p|, x, y);
      var r := SwapFrom(q, |p|, x, y);
      assert r[..|p| + 1] == p + [x];
    }
  }

  /** Open bins first, fullest after taking the unit; then closed bins, largest first. */
  predicate TriedBefore(fleet: seq<Vehicle>, items: seq<seq<Cargo>>, c: Cargo, x: nat, y: nat) {
    if x < |items| && y < |items| && |items| == |fleet| then
      var v, w := fleet[x], fleet[y];
      if (items[x] != []) != (items[y] != []) then items[x] != []
      else if items[x] == [] then LargerVehicle(v, w)
      else
        var areaX, areaY := v.Area() - SumBy(items[x] + [c], AreaOf), w.Area() - SumBy(items[y] + [c], AreaOf);
        if areaX != areaY then areaX < areaY
        else v.payload - SumBy(items[x] + [c], WeightOf) <= w.payload - SumBy(items[y] + [c], WeightOf)
    else true
  }

  predicate LargerVehicle(v: Vehicle, w: Vehicle) {
    if v.Area() != w.Area() then v.Area() > w.Area() else v.payload >= w.payload
  }

  /** How many states there can be with this many bins and units still to place. */
  ghost function StatesBelow(bins: nat, units: nat): nat {
    if units == 0 then 0 else 1 + Times(bins, StatesBelow(bins, units - 1))
  }

  /** From the first count and flag to the second: at most `most` states were visited, the
      flag never resets, and it is raised only past the cap. */
  predicate Counted(seen: nat, reached: bool, seen': nat, reached': bool, most: nat) {
    && seen <= seen' <= seen + most && (reached ==> reached')
    && (reached' && !reached ==> seen' > MAX_CARGO_ALLOCATION_STATES)
  }

  lemma NothingCounted(seen: nat, reached: bool, most: nat)
    ensures Counted(seen, reached, seen, reached, most)
  {
  }

  /** The state itself: raising the flag, if the cap is passed, or going on. */
  lemma OneCounted(seen: nat, reached: bool, bins: nat, units: nat)
    requires units > 0
    ensures Counted(seen, reached, seen + 1, reached, 1 + Times(0, StatesBelow(bins, units - 1)))
    ensures seen + 1 > MAX_CARGO_ALLOCATION_STATES ==> Counted(seen, reached, seen + 1, true, StatesBelow(bins, units))
  {
  }

  lemma BinCounted(seen: nat, reached: bool, seen': nat, reached': bool, seen'': nat, reached'': bool, k: nat,
      below: nat)
    requires Counted(seen, reached, seen', reached', 1 + Times(k, below))
    requires Counted(seen', reached', seen'', reached'', below)
    ensures Counted(seen, reached, seen'', reached'', 1 + Times(k + 1, below))
  {
    hide Times;
    TimesNext(k, below);
  }

  lemma AllCounted(seen: nat, reached: bool, seen': nat, reached': bool, k: nat, bins: nat, units: nat)
    requires units > 0 && k <= bins
    requires Counted(seen, reached, seen', reached', 1 + Times(k, StatesBelow(bins, units - 1)))
    ensures Counted(seen, reached, seen', reached', StatesBelow(bins, units))
  {
    hide Times;
    TimesGrows(k, bins, StatesBelow(bins, units - 1), StatesBelow(bins, units - 1));
  }

  class Allocator {
    const cargo: seq<Cargo>
    const fleet: seq<Vehicle>
    var items: seq<seq<Cargo>>
    var visitedStates: nat
    var searchLimitReached: bool

    constructor (cargo: seq<Cargo>, fleet: seq<Vehicle>)
      ensures this.cargo == cargo && this.fleet == fleet && !searchLimitReached && visitedStates == 0
    {
      this.cargo, this.fleet := cargo, fleet;
      items, visitedStates, searchLimitReached := [], 0, false;
    }

    /** The bins hold exactly this partial allocation. */
    ghost predicate Holds(p: Allocation)
      reads this`items
    {
      && |items| == |fleet| && |p| <= |cargo|
      && forall b | 0 <= b < |fleet| :: items[b] == Contents(cargo, p, b)
    }

    method Clear()
      modifies this`items
      ensures Holds([])
    {
      items := seq(|fleet|, b => []);
    }

    function SignatureOf(b: nat): Signature
      requires b < |items| && |items| == |fleet|
      reads this`items
    {
      var v := fleet[b];
      Signature(v.length, v.width, v.height, v.payload - SumBy(items[b], WeightOf), v.Area() - SumBy(items[b], AreaOf))
    }

    predicate CanTry(c: Cargo, b: nat, used: nat, limit: nat)
      reads this`items
    {
      && b < |items| && |items| == |fleet|
      && (items[b] != [] || used < limit)
      && CargoSetFitsVehicle(items[b] + [c], fleet[b])
    }

    method Candidates(c: Cargo, used: nat, limit: nat) returns (candidates: seq<nat>)
      requires |items| == |fleet|
      ensures forall b :: b in candidates <==> CanTry(c, b, used, limit)
      ensures |candidates| <= |fleet|
    {
      candidates := [];
      for b := 0 to |fleet|
        invariant forall a: nat :: a in candidates <==> a < b && CanTry(c, a, used, limit)
        invariant |candidates| <= b
      {
        if CanTry(c, b, used, limit) {
          candidates := candidates + [b];
        }
      }
      var bins, contents := candidates, items;
      candidates := SortBy(bins, (x, y) => TriedBefore(fleet, contents, c, x, y));
      SameMembers(candidates, bins);
    }

    method Search(cargoIndex: nat, vehicleLimit: nat, ghost p: Allocation) returns (ok: bool)
      requires ValidInput(cargo, fleet)
      requires cargoIndex == |p| && Holds(p) && IsAllocation(cargo, fleet, p) && |Used(p)| <= vehicleLimit
      modifies this
      ensures Counted(old(visitedStates), old(searchLimitReached), visitedStates, searchLimitReached,
                      StatesBelow(|fleet|, |cargo| - cargoIndex))
      ensures old(searchLimitReached) ==> searchLimitReached
      ensures ok ==> exists q: Allocation ::
                IsComplete(cargo, fleet, q) && p <= q && |Used(q)| <= vehicleLimit && Holds(q)
      ensures !ok ==> Holds(p)
      ensures !ok && !searchLimitReached ==> NoCompletion(cargo, fleet, p, vehicleLimit)
      decreases |cargo| - cargoIndex, 1
    {
      hide IsAllocation, CargoSetFitsVehicle, ValidInput, NoCompletion, Contents, Counted, Times, StatesBelow;
      ghost var seen, reached := visitedStates, searchLimitReached;
      if cargoIndex >= |cargo| {
        assert IsComplete(cargo, fleet, p);
        NothingCounted(seen, reached, StatesBelow(|fleet|, 0));
        return true;
      }
      visitedStates := visitedStates + 1;
      if visitedStates > MAX_CARGO_ALLOCATION_STATES {
        searchLimitReached := true;
        OneCounted(seen, reached, |fleet|, |cargo| - cargoIndex);
        return false;
      }
      OneCounted(seen, reached, |fleet|, |cargo| - cargoIndex);
      var c := cargo[cargoIndex];
      var usedBinCount := Count(items);
      UsedBins(p);
      var candidates := Candidates(c, usedBinCount, vehicleLimit);
      var tried: map<Signature, nat> := map[];
      ghost var below := StatesBelow(|fleet|, |cargo| - cargoIndex - 1);
      for k := 0 to |candidates|
        invariant Holds(p)
        invariant Counted(seen, reached, visitedStates, searchLimitReached, 1 + Times(k, below))
        invariant reached ==> searchLimitReached
        invariant forall s | s in tried :: tried[s] < |fleet| && SignatureOf(tried[s]) == s
        invariant !searchLimitReached ==> forall s | s in tried ::
                    NoCompletion(cargo, fleet, p + [tried[s]], vehicleLimit)
        invariant !searchLimitReached ==>
                    forall j | 0 <= j < k :: NoCompletion(cargo, fleet, p + [candidates[j]], vehicleLimit)
      {
        ghost var seenBefore, reachedBefore := visitedStates, searchLimitReached;
        var bin := candidates[k];
        assert bin in candidates && CanTry(c, bin, usedBinCount, vehicleLimit);
        var signature := SignatureOf(bin);
        if signature in tried {
          SameSignatureFails(p, vehicleLimit, tried[signature], bin);
          NothingCounted(seenBefore, reachedBefore, below);
          BinCounted(seen, reached, seenBefore, reachedBefore, visitedStates, searchLimitReached, k, below);
          continue;
        }
        tried := tried[signature := bin];
        ok := TryBin(cargoIndex, bin, usedBinCount, vehicleLimit, p);
        BinCounted(seen, reached, seenBefore, reachedBefore, visitedStates, searchLimitReached, k, below);
        AllCounted(seen, reached, visitedStates, searchLimitReached, k + 1, |fleet|, |cargo| - cargoIndex);
        if ok {
          return true;
        }
        if searchLimitReached {
          return false;
        }
      }
      AllCounted(seen, reached, visitedStates, searchLimitReached, |candidates|, |fleet|, |cargo| - cargoIndex);
      if !searchLimitReached {
        NothingLeftToTry(p, usedBinCount, vehicleLimit, candidates);
      }
      return false;
    }

    /** Put the unit into the bin, go on, and take it out again if that fails. */
    method TryBin(cargoIndex: nat, bin: nat, usedBinCount: nat, vehicleLimit: nat, ghost p: Allocation)
        returns (ok: bool)
      requires ValidInput(cargo, fleet)
      requires cargoIndex == |p| < |cargo| && Holds(p) && IsAllocation(cargo, fleet, p)
      requires usedBinCount == |Used(p)| <= vehicleLimit && CanTry(cargo[cargoIndex], bin, usedBinCount, vehicleLimit)
      modifies this
      ensures Counted(old(visitedStates), old(searchLimitReached), visitedStates, searchLimitReached,
                      StatesBelow(|fleet|, |cargo| - cargoIndex - 1))
      ensures old(searchLimitReached) ==> searchLimitReached
      ensures ok ==> exists q: Allocation ::
                IsComplete(cargo, fleet, q) && p <= q && |Used(q)| <= vehicleLimit && Holds(q)
      ensures !ok ==> Holds(p) && items == old(items)
      ensures !ok && !searchLimitReached ==> NoCompletion(cargo, fleet, p + [bin], vehicleLimit)
      decreases |cargo| - cargoIndex, 0
    {
      hide IsAllocation, ValidInput, NoCompletion, Contents, StatesBelow;
      ghost var extended := p + [bin];
      Push(bin, cargo[cargoIndex], p);
      PushedIsAllocation(p, bin, usedBinCount, vehicleLimit);
      ok := Search(cargoIndex + 1, vehicleLimit, extended);
      if ok {
        ghost var q: Allocation :|
          IsComplete(cargo, fleet, q) && extended <= q && |Used(q)| <= vehicleLimit && Holds(q);
        assert p <= q;
        return true;
      }
      Pop(bin, p);
    }

    method Push(bin: nat, c: Cargo, ghost p: Allocation)
      requires Holds(p) && bin < |fleet| && |p| < |cargo| && c == cargo[|p|]
      modifies this`items
      ensures Holds(p + [bin]) && items == old(items)[bin := old(items)[bin] + [c]]
    {
      items := items[bin := items[bin] + [c]];
      assert (p + [bin])[..|p|] == p;
      assert forall b | 0 <= b < |fleet| && b != bin :: Contents(cargo, p + [bin], b) == Contents(cargo, p, b) + [];
    }

    method Pop(bin: nat, ghost p: Allocation)
      requires bin < |fleet| && |p| < |cargo| && Holds(p + [bin])
      modifies this`items
      ensures Holds(p)
    {
      assert (p + [bin])[..|p|] == p;
      assert forall b | 0 <= b < |fleet| && b != bin :: Contents(cargo, p + [bin], b) == Contents(cargo, p, b) + [];
      items := items[bin := items[bin][..|items[bin]| - 1]];
    }

    lemma UsedBins(p: Allocation)
      requires Holds(p) && IsAllocation(cargo, fleet, p)
      ensures Count(items) == |Used(p)|
    {
      CountIsUsed(cargo, p, items);
      assert forall b | b in Used(p) :: b < |fleet|;
      ChosenCountIsSize(|fleet|, Used(p));
    }

    lemma SameSignatureFails(p: Allocation, limit: nat, x: nat, y: nat)
      requires ValidInput(cargo, fleet) && Holds(p) && |p| < |cargo| && x < |fleet| && y < |fleet|
      requires SignatureOf(x) == SignatureOf(y)
      ensures NoCompletion(cargo, fleet, p + [x], limit) ==> NoCompletion(cargo, fleet, p + [y], limit)
    {
      ContentsSum(WeightOf, cargo, p, x);
      ContentsSum(WeightOf, cargo, p, y);
      ContentsSum(AreaOf, cargo, p, x);
      ContentsSum(AreaOf, cargo, p, y);
      if NoCompletion(cargo, fleet, p + [x], limit) {
        EquivalentBinFails(cargo, fleet, p, limit, x, y);
      }
    }

    lemma PushedIsAllocation(p: Allocation, bin: nat, used: nat, limit: nat)
      requires ValidInput(cargo, fleet) && IsAllocation(cargo, fleet, p) && bin < |fleet| && |p| < |cargo|
      requires Holds(p + [bin]) && used == |Used(p)| && |Used(p)| <= limit
      requires CargoSetFitsVehicle(items[bin], fleet[bin])
      requires items[bin] == [cargo[|p|]] ==> used < limit
      ensures IsAllocation(cargo, fleet, p + [bin]) && |Used(p + [bin])| <= limit
    {
      var q := p + [bin];
      assert q[..|p|] == p;
      forall b | 0 <= b < |fleet|
        ensures FitsBin(cargo, q, b, fleet[b])
      {
        ContentsFit(cargo, q, b, fleet[b]);
        assert FitsBin(cargo, p, b, fleet[b]);
        ContentsFit(cargo, p, b, fleet[b]);
        if b != bin {
          assert Contents(cargo, q, b) == Contents(cargo, p, b) + [];
        }
      }
      assert Used(q) == Used(p) + {bin};
      ContentsMembers(cargo, p, bin);
      if bin !in Used(p) {
        assert Contents(cargo, q, bin) == [] + [cargo[|p|]];
      } else {
        assert Used(q) == Used(p);
      }
    }

    lemma NothingLeftToTry(p: Allocation, used: nat, limit: nat, candidates: seq<nat>)
      requires ValidInput(cargo, fleet) && Holds(p) && |p| < |cargo|
      requires used == |Used(p)|
      requires forall b :: b in candidates <==> CanTry(cargo[|p|], b, used, limit)
      requires forall j | 0 <= j < |candidates| :: NoCompletion(cargo, fleet, p + [candidates[j]], limit)
      ensures NoCompletion(cargo, fleet, p, limit)
    {
      hide FitsBin, CargoSetFitsVehicle;
      forall q: Allocation | IsComplete(cargo, fleet, q) && p <= q
        ensures |Used(q)| > limit
      {
        if |Used(q)| <= limit {
          var j := NextIsCandidate(p, q, used, limit, candidates);
        }
      }
    }

    /** A completion within the limit goes on with one of the candidates. */
    lemma NextIsCandidate(p: Allocation, q: Allocation, used: nat, limit: nat, candidates: seq<nat>) returns (j: nat)
      requires ValidInput(cargo, fleet) && Holds(p) && |p| < |cargo| && used == |Used(p)|
      requires forall b :: b in candidates <==> CanTry(cargo[|p|], b, used, limit)
      requires IsComplete(cargo, fleet, q) && p <= q && |Used(q)| <= limit
      ensures j < |candidates| && p + [candidates[j]] <= q
    {
      hide FitsBin, CargoSetFitsVehicle;
      var k := |p|;
      var b := q[k];
      var next := p + [b];
      assert q[..k] == p && q[..k + 1] == next && next[..k] == p;
      PrefixIsAllocation(cargo, fleet, q, k + 1);
      ContentsFit(cargo, next, b, fleet[b]);
      assert Contents(cargo, next, b) == items[b] + [cargo[k]];
      ContentsMembers(cargo, p, b);
      if b !in Used(p) {
        UsedGrows(p, q, k);
      }
      assert CanTry(cargo[k], b, used, limit);
      j :| 0 <= j < |candidates| && candidates[j] == b;
    }
  }

  lemma UsedGrows(p: Allocation, q: Allocation, k: nat)
    requires k == |p| < |q| && p <= q && q[k] !in Used(p)
    ensures |Used(p)| < |Used(q)|
  {
    assert forall b | b in Used(p) :: b in q;
    assert Used(p) + {q[k]} <= Used(q);
    SubsetSize(Used(p) + {q[k]}, Used(q));
  }

  // ---------- the whole allocation ----------

  function Compatible(c: Cargo, vehicles: seq<Vehicle>): nat {
    if vehicles == [] then 0
    else (if CargoFitsVehicle(c, vehicles[0]) then 1 else 0) + Compatible(c, vehicles[1..])
  }

  predicate HarderCargo(vehicles: seq<Vehicle>, a: Cargo, b: Cargo) {
    if Compatible(a, vehicles) != Compatible(b, vehicles) then Compatible(a, vehicles) < Compatible(b, vehicles)
    else if a.Area() != b.Area() then a.Area() > b.Area()
    else a.weight >= b.weight
  }

  lemma ListedInputValid(cargo: seq<Cargo>, vehicles: seq<Vehicle>, listed: seq<Cargo>, fleet: seq<Vehicle>)
    requires ValidInput(cargo, vehicles)
    requires multiset(listed) == multiset(cargo) && multiset(fleet) == multiset(vehicles)
    ensures ValidInput(listed, fleet)
  {
    SameMembers(listed, cargo);
    SameMembers(fleet, vehicles);
  }

  lemma TooMuchForFleet(cargo: seq<Cargo>, fleet: seq<Vehicle>)
    requires ValidInput(cargo, fleet)
    requires SumBy(cargo, WeightOf) > SumBy(Payloads(fleet), x => x)
             || SumBy(cargo, AreaOf) > SumBy(Floors(fleet), x => x)
    ensures forall p: Allocation :: !IsComplete(cargo, fleet, p)
  {
    forall p: Allocation | IsComplete(cargo, fleet, p)
      ensures false
    {
      UsedVehiclesSuffice(cargo, fleet, p);
      FleetCapacities(cargo, fleet);
      ChosenAtMostAll(Payloads(fleet), Used(p));
      ChosenAtMostAll(Floors(fleet), Used(p));
    }
  }

  lemma FleetCapacities(cargo: seq<Cargo>, fleet: seq<Vehicle>)
    requires ValidInput(cargo, fleet)
    ensures forall k | 0 <= k < |fleet| :: Payloads(fleet)[k] > 0 && Floors(fleet)[k] > 0
  {
    forall k | 0 <= k < |fleet|
      ensures Payloads(fleet)[k] > 0 && Floors(fleet)[k] > 0
    {
      assert fleet[k] in fleet;
    }
  }

  /** Fewer vehicles than the lower bound cannot take all the cargo. */
  lemma BelowMinimum(cargo: seq<Cargo>, fleet: seq<Vehicle>, minimum: nat, byWeight: nat, byArea: nat)
    requires ValidInput(cargo, fleet) && cargo != []
    requires minimum <= 1 || minimum == byWeight || minimum == byArea
    requires forall chosen: set<nat> | (forall b | b in chosen :: b < |fleet|) && chosen != {}
                                       && ChosenSum(Payloads(fleet), chosen) >= SumBy(cargo, WeightOf) ::
                |chosen| >= byWeight
    requires forall chosen: set<nat> | (forall b | b in chosen :: b < |fleet|) && chosen != {}
                                       && ChosenSum(Floors(fleet), chosen) >= SumBy(cargo, AreaOf) :: |chosen| >= byArea
    ensures forall p: Allocation | IsComplete(cargo, fleet, p) :: |Used(p)| >= minimum
  {
    forall p: Allocation | IsComplete(cargo, fleet, p)
      ensures |Used(p)| >= minimum
    {
      assert p[0] in Used(p);
      UsedVehiclesSuffice(cargo, fleet, p);
    }
  }

  lemma {:induction false} EmptyIsAllocation(cargo: seq<Cargo>, fleet: seq<Vehicle>)
    requires ValidInput(cargo, fleet)
    ensures IsAllocation(cargo, fleet, []) && |Used([])| == 0
  {
    assert Used([]) == {};
    forall b | 0 <= b < |fleet|
      ensures FitsBin(cargo, [], b, fleet[b])
    {
      assert fleet[b] in fleet;
    }
  }

  /** The first vehicle limit tried: every complete allocation uses at least this many. */
  method MinimumVehicleCount(cargo: seq<Cargo>, fleet: seq<Vehicle>) returns (minimum: nat)
    requires ValidInput(cargo, fleet) && cargo != []
    ensures minimum >= 1
    ensures forall p: Allocation | IsComplete(cargo, fleet, p) :: |Used(p)| >= minimum
  {
    hide IsComplete, ValidInput, SumBy, ChosenSum, PrefixSum;
    FleetCapacities(cargo, fleet);
    var byWeight := MinimumBinCountForTotal(SumBy(cargo, WeightOf), Payloads(fleet));
    var byArea := MinimumBinCountForTotal(SumBy(cargo, AreaOf), Floors(fleet));
    minimum := if byWeight >= byArea then byWeight else byArea;
    BelowMinimum(cargo, fleet, minimum, byWeight, byArea);
  }

  /** All the states of all the searches, one for each vehicle limit. */
  ghost function MostStates(vehicles: nat, units: nat): nat {
    Times(vehicles, StatesBelow(vehicles, units))
  }

  lemma {:induction false} FewerStates(bins: nat, more: nat, units: nat, others: nat)
    requires bins <= more && units <= others
    ensures StatesBelow(bins, units) <= StatesBelow(more, others)
  {
    if units == 0 {
    } else {
      FewerStates(bins, more, units - 1, others - 1);
      TimesGrows(bins, more, StatesBelow(bins, units - 1), StatesBelow(more, others - 1));
    }
  }

  /** Up to six units on up to six vehicles always get a verdict. */
  lemma SixBySixIsDecided(vehicles: nat, units: nat)
    requires vehicles <= 6 && units <= 6
    ensures MostStates(vehicles, units) <= MAX_CARGO_ALLOCATION_STATES
  {
    FewerStates(vehicles, 6, units, 6);
    TimesGrows(vehicles, 6, StatesBelow(vehicles, units), StatesBelow(6, 6));
    assert StatesBelow(6, 2) == 7;
    assert StatesBelow(6, 4) == 259;
    assert StatesBelow(6, 6) == 9331;
  }

  /** With the state cap not hit the verdict is exact: a solution places every unit
      exactly once within capacity on the fewest vehicles possible, and infeasibility
      means that no split exists. The cap can be hit only when there are that many states. */
  method AllocateCargoToPhysicalVehicles(cargoUnits: seq<Cargo>, physicalVehicles: seq<Vehicle>)
      returns (result: AllocationResult)
    requires ValidInput(cargoUnits, physicalVehicles) && cargoUnits != []
    ensures result.Solved? ==>
              && IsSplit(result.bins, cargoUnits, physicalVehicles)
              && forall other: seq<VehicleBin> | IsSplit(other, cargoUnits, physicalVehicles) ::
                  OpenCount(other) >= OpenCount(result.bins)
    ensures result.Infeasible? ==> forall other: seq<VehicleBin> :: !IsSplit(other, cargoUnits, physicalVehicles)
    ensures result.SearchLimit? ==> MostStates(|physicalVehicles|, |cargoUnits|) > 250_000
  {
    hide IsSplit, IsComplete, FitsBin, ValidInput, OpenCount, SumBy, ChosenSum, Payloads, Floors, PrefixSum, Times,
        StatesBelow, HarderCargo, CargoSetFitsVehicle, Contents;
    var fleet := SortBy(physicalVehicles, LargerVehicle);
    var cargo := SortBy(cargoUnits, (a, b) => HarderCargo(physicalVehicles, a, b));
    ListedInputValid(cargoUnits, physicalVehicles, cargo, fleet);
    var totalWeight, totalArea := SumBy(cargo, WeightOf), SumBy(cargo, AreaOf);
    if totalWeight > SumBy(Payloads(fleet), x => x) || totalArea > SumBy(Floors(fleet), x => x) {
      TooMuchForFleet(cargo, fleet);
      NoAllocationNoSplit(cargoUnits, physicalVehicles, cargo, fleet);
      return Infeasible;
    }
    var minimum := MinimumVehicleCount(cargo, fleet);
    EmptyIsAllocation(cargo, fleet);
    var allocator := new Allocator(cargo, fleet);
    var vehicleLimit := minimum;
    ghost var states := StatesBelow(|fleet|, |cargo|);
    ghost var rounds: nat := 0;
    TimesZero(states);
    while vehicleLimit <= |fleet|
      invariant vehicleLimit >= minimum && !allocator.searchLimitReached
      invariant allocator.cargo == cargo && allocator.fleet == fleet
      invariant forall p: Allocation | IsComplete(cargo, fleet, p) :: |Used(p)| >= vehicleLimit
      invariant rounds < vehicleLimit && allocator.visitedStates <= Times(rounds, states)
      decreases |fleet| - vehicleLimit
    {
      TimesNext(rounds, states);
      TimesGrows(rounds + 1, |fleet|, states, states);
      rounds := rounds + 1;
      allocator.Clear();
      var found := allocator.Search(0, vehicleLimit, []);
      if found {
        ghost var q: Allocation :|
          IsComplete(cargo, fleet, q) && |Used(q)| <= vehicleLimit && allocator.Holds(q);
        AllocationGivesSplit(cargoUnits, physicalVehicles, cargo, fleet, q, allocator.items);
        SplitsOpenAtLeast(cargoUnits, physicalVehicles, cargo, fleet, vehicleLimit);
        return Solved(BinsOf(fleet, allocator.items));
      }
      if allocator.searchLimitReached {
        return SearchLimit;
      }
      vehicleLimit := vehicleLimit + 1;
    }
    forall p: Allocation
      ensures !IsComplete(cargo, fleet, p)
    {
      if IsComplete(cargo, fleet, p) { UsesAtMostFleet(cargo, fleet, p); }
    }
    NoAllocationNoSplit(cargoUnits, physicalVehicles, cargo, fleet);
    return Infeasible;
  }

  lemma UsesAtMostFleet(cargo: seq<Cargo>, fleet: seq<Vehicle>, p: Allocation)
    requires IsComplete(cargo, fleet, p)
    ensures |Used(p)| <= |fleet|
  {
    assert forall b | b in Used(p) :: b < |fleet|;
    ChosenCountIsSize(|fleet|, Used(p));
    CountAtMost(|fleet|, Used(p));
  }

  lemma NoAllocationNoSplit(cargo: seq<Cargo>, vehicles: seq<Vehicle>, listed: seq<Cargo>, fleet: seq<Vehicle>)
    requires multiset(listed) == multiset(cargo) && multiset(fleet) == multiset(vehicles)
    requires ValidInput(listed, fleet) && forall p: Allocation :: !IsComplete(listed, fleet, p)
    ensures forall other: seq<VehicleBin> :: !IsSplit(other, cargo, vehicles)
  {
    hide IsSplit, IsComplete;
    forall other: seq<VehicleBin> | IsSplit(other, cargo, vehicles)
      ensures false
    {
      var p := SplitGivesAllocation(other, cargo, vehicles, listed, fleet);
    }
  }

  lemma SplitsOpenAtLeast(cargo: seq<Cargo>, vehicles: seq<Vehicle>, listed: seq<Cargo>, fleet: seq<Vehicle>,
      limit: nat)
    requires multiset(listed) == multiset(cargo) && multiset(fleet) == multiset(vehicles)
    requires ValidInput(listed, fleet)
    requires forall p: Allocation | IsComplete(listed, fleet, p) :: |Used(p)| >= limit
    ensures forall other: seq<VehicleBin> | IsSplit(other, cargo, vehicles) :: OpenCount(other) >= limit
  {
    hide IsSplit, IsComplete;
    forall other: seq<VehicleBin> | IsSplit(other, cargo, vehicles)
      ensures OpenCount(other) >= limit
    {
      var p := SplitGivesAllocation(other, cargo, vehicles, listed, fleet);
    }
  }

  // ---------- splitting one order ----------

  datatype OrderSplit = Whole | Parts(parts: seq<VehicleBin>) | Unproven

  function OpenBins(bins: seq<VehicleBin>): seq<VehicleBin> {
    if bins == [] then []
    else (if bins[0].items != [] then [bins[0]] else []) + OpenBins(bins[1..])
  }

  lemma OpenBinsStep(bins: seq<VehicleBin>)
    requires bins != []
    ensures OpenBins(bins) == if bins[0].items != [] then [bins[0]] + OpenBins(bins[1..]) else OpenBins(bins[1..])
  {
    assert [] + OpenBins(bins[1..]) == OpenBins(bins[1..]);
  }

  lemma {:induction false} OpenBinsItems(bins: seq<VehicleBin>)
    ensures AllItems(OpenBins(bins)) == AllItems(bins)
    ensures |OpenBins(bins)| == OpenCount(bins)
    ensures forall b | b in OpenBins(bins) :: b in bins && b.items != []
  {
    if bins == [] {
    } else {
      var open := OpenBins(bins[1..]);
      OpenBinsItems(bins[1..]);
      OpenBinsStep(bins);
      assert ([bins[0]] + open)[1..] == open;
      assert bins[0].items == [] ==> AllItems(bins) == AllItems(bins[1..]);
    }
  }

  lemma VehiclesOfPrepend(head: VehicleBin, tail: seq<VehicleBin>)
    ensures multiset(VehiclesOf([head] + tail)) == multiset{head.vehicle} + multiset(VehiclesOf(tail))
  {
    assert VehiclesOf([head] + tail) == [head.vehicle] + VehiclesOf(tail);
  }

  lemma SubMultisetGrows<T>(a: multiset<T>, b: multiset<T>, x: T)
    requires a <= b
    ensures a <= multiset{x} + b && multiset{x} + a <= multiset{x} + b
  {
  }

  lemma {:induction false} OpenBinsVehicles(bins: seq<VehicleBin>)
    ensures multiset(VehiclesOf(OpenBins(bins))) <= multiset(VehiclesOf(bins))
  {
    if bins == [] {
    } else {
      var head, tail, open := bins[0], bins[1..], OpenBins(bins[1..]);
      OpenBinsVehicles(tail);
      OpenBinsStep(bins);
      hide OpenBins, VehiclesOf;
      VehiclesOfPrepend(head, tail);
      VehiclesOfPrepend(head, open);
      assert bins == [head] + tail;
      SubMultisetGrows(multiset(VehiclesOf(open)), multiset(VehiclesOf(tail)), head.vehicle);
    }
  }

  lemma OpenBinsKeepAll(bins: seq<VehicleBin>)
    ensures AllItems(OpenBins(bins)) == AllItems(bins)
    ensures |OpenBins(bins)| == OpenCount(bins)
    ensures forall b | b in OpenBins(bins) :: b in bins && b.items != []
    ensures multiset(VehiclesOf(OpenBins(bins))) <= multiset(VehiclesOf(bins))
  {
    OpenBinsItems(bins);
    OpenBinsVehicles(bins);
  }

  lemma {:induction false} AllItemsMember(bins: seq<VehicleBin>, c: Cargo) returns (k: nat)
    requires c in AllItems(bins)
    ensures k < |bins| && c in bins[k].items
  {
    if c in bins[0].items {
      k := 0;
    } else {
      k := AllItemsMember(bins[1..], c);
      k := k + 1;
    }
  }

  /** A unit that fits no vehicle rules out every split. */
  lemma UnfittingUnit(cargo: seq<Cargo>, vehicles: seq<Vehicle>, c: Cargo)
    requires c in cargo && forall v | v in vehicles :: !CargoFitsVehicle(c, v)
    ensures forall other: seq<VehicleBin> :: !IsSplit(other, cargo, vehicles)
  {
    forall other: seq<VehicleBin> | IsSplit(other, cargo, vehicles)
      ensures false
    {
      var v := SplitFitsUnit(other, cargo, vehicles, c);
    }
  }

  lemma SplitFitsUnit(bins: seq<VehicleBin>, cargo: seq<Cargo>, vehicles: seq<Vehicle>, c: Cargo) returns (v: Vehicle)
    requires IsSplit(bins, cargo, vehicles) && c in cargo
    ensures v in vehicles && CargoFitsVehicle(c, v)
  {
    SameMembers(AllItems(bins), cargo);
    SameMembers(VehiclesOf(bins), vehicles);
    var k := AllItemsMember(bins, c);
    assert VehiclesOf(bins)[k] in VehiclesOf(bins);
    var j :| 0 <= j < |bins[k].items| && bins[k].items[j] == c;
    assert CargoFitsVehicle(bins[k].items[j], bins[k].vehicle);
    v := bins[k].vehicle;
  }

  /** A split on at most one vehicle means that this vehicle takes the whole order. */
  lemma OnOneVehicle(bins: seq<VehicleBin>, cargo: seq<Cargo>, vehicles: seq<Vehicle>)
    requires IsSplit(bins, cargo, vehicles) && cargo != [] && |OpenBins(bins)| <= 1
    ensures exists v :: v in vehicles && CargoSetFitsVehicle(cargo, v)
  {
    OpenBinsKeepAll(bins);
    var open := OpenBins(bins);
    assert |cargo| == |multiset(AllItems(bins))|;
    if open != [] {
      assert AllItems(open) == open[0].items + AllItems(open[1..]) && open[1..] == [];
      assert AllItems(open) == open[0].items;
      assert open[0] in bins;
      var k :| 0 <= k < |bins| && bins[k] == open[0];
      FitsWhateverOrder(cargo, open[0].items, open[0].vehicle);
      SameMembers(VehiclesOf(bins), vehicles);
      assert VehiclesOf(bins)[k] in VehiclesOf(bins);
    }
  }

  /** An order is split only when no single vehicle takes it; the parts then hold every
      unit once, fit their own vehicles, and are as few as possible. It is left whole
      only when it is a single unit, fits one vehicle, or cannot be split at all. */
  method SplitOversizedOrder(items: seq<Cargo>, vehicles: seq<Vehicle>) returns (split: OrderSplit)
    requires ValidInput(items, vehicles)
    ensures split.Whole? ==>
              || |items| <= 1
              || (exists v :: v in vehicles && CargoSetFitsVehicle(items, v))
              || forall other: seq<VehicleBin> :: !IsSplit(other, items, vehicles)
    ensures split.Unproven? ==> MostStates(|vehicles|, |items|) > 250_000
    ensures split.Parts? ==>
              && |split.parts| > 1
              && multiset(AllItems(split.parts)) == multiset(items)
              && multiset(VehiclesOf(split.parts)) <= multiset(vehicles)
              && (forall b | b in split.parts :: b.items != [] && CargoSetFitsVehicle(b.items, b.vehicle))
              && (forall other: seq<VehicleBin> | IsSplit(other, items, vehicles) :: OpenCount(other) >= |split.parts|)
  {
    hide CargoSetFitsVehicle, OpenCount, AllItems;
    if |items| <= 1 || exists v :: v in vehicles && CargoSetFitsVehicle(items, v) {
      return Whole;
    }
    if c: Cargo :| c in items && !exists v :: v in vehicles && CargoFitsVehicle(c, v) {
      UnfittingUnit(items, vehicles, c);
      return Whole;
    }
    var allocation := AllocateCargoToPhysicalVehicles(items, vehicles);
    if allocation.SearchLimit? {
      return Unproven;
    }
    if allocation.Infeasible? {
      return Whole;
    }
    var usedBins := OpenBins(allocation.bins);
    OpenBinsKeepAll(allocation.bins);
    if |usedBins| <= 1 {
      OnOneVehicle(allocation.bins, items, vehicles);
      return Whole;
    }
    forall b | b in usedBins
      ensures CargoSetFitsVehicle(b.items, b.vehicle)
    {
      var k :| 0 <= k < |allocation.bins| && allocation.bins[k] == b;
    }
    return Parts(usedBins);
  }
}
