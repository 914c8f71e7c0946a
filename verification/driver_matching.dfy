/** One-to-one matching of vehicles with drivers by augmenting paths, in the two
    orders in which it is run, and the proof that either way it is maximum. */
module DriverMatching {
  import opened Prelude
  import opened Sorting

  datatype License = B2 | C | CE | FC | OtherLicense

  datatype Driver = Driver(id: nat, license: License, day: nat, tripBasePay: nat, perKmPay: nat, monthlySalary: nat)

  /** `articulated` stands for the keyword test on the vehicle type. */
  datatype Vehicle = Vehicle(id: nat, payloadKg: nat, articulated: bool, day: nat)

  predicate CanDriverDriveVehicle(license: License, payloadKg: nat, articulated: bool) {
    if articulated then license in {FC, CE}
    else license in {FC, CE, C} || (license == B2 && payloadKg <= 3500)
  }

  /** Each kind of vehicle widens the choice: with FC or CE one may drive everything, with C
      everything that is not articulated, with B2 only what is light as well, and with any
      other licence nothing. */
  lemma LicencesNest(payloadKg: nat)
    ensures forall l :: CanDriverDriveVehicle(l, payloadKg, true) <==> l == FC || l == CE
    ensures forall l :: CanDriverDriveVehicle(l, payloadKg, false) <==>
              CanDriverDriveVehicle(l, payloadKg, true) || l == C || (l == B2 && payloadKg < 3501)
  {
  }

  predicate IsLegalPair(v: Vehicle, d: Driver) {
    CanDriverDriveVehicle(d.license, v.payloadKg, v.articulated) && d.day == v.day
  }

  // ---------- matchings ----------

  /** Driver index to vehicle index. */
  type Matching = map<nat, nat>

  /** For each vehicle the drivers that may take it, in order of trial. */
  type Candidates = seq<seq<nat>>

  ghost predicate IsMatching(candidates: Candidates, m: Matching) {
    && (forall d | d in m :: m[d] < |candidates| && d in candidates[m[d]])
    && (forall d, e | d in m && e in m && d != e :: m[d] != m[e])
  }

  ghost function Neighbours(candidates: Candidates, v: nat): set<nat>
    requires v < |candidates|
  {
    set d | d in candidates[v]
  }

  /** Every driver in `closed` is taken by a vehicle that can use no driver outside. */
  ghost predicate IsClosed(candidates: Candidates, m: Matching, closed: set<nat>) {
    && closed <= m.Keys
    && forall d | d in closed :: m[d] < |candidates| && Neighbours(candidates, m[d]) <= closed
  }

  ghost predicate Legal(candidates: Candidates, m: Matching) {
    forall d | d in m :: m[d] < |candidates| && d in candidates[m[d]]
  }

  /** One-to-one among the drivers not yet seen. */
  ghost predicate InjectiveOutside(m: Matching, seen: set<nat>) {
    forall d, e | d in m && e in m && d !in seen && e !in seen && d != e :: m[d] != m[e]
  }

  ghost function MatchedOutside(m: Matching, seen: set<nat>): set<nat> {
    set d | d in m && d !in seen :: m[d]
  }

  /** The new matching takes in `v` besides what was matched, touching nothing in `seen` or `closed`. */
  ghost predicate Augments(candidates: Candidates, m: Matching, m': Matching, seen: set<nat>, closed: set<nat>,
      v: nat) {
    && Legal(candidates, m') && InjectiveOutside(m', seen)
    && (forall d | d in seen + closed :: (d in m' <==> d in m) && (d in m ==> m'[d] == m[d]))
    && MatchedOutside(m', seen) == MatchedOutside(m, seen) + {v}
  }

  /** The drivers seen since `start` are all taken by vehicles that can use only drivers seen. */
  ghost predicate LeadsNowhere(candidates: Candidates, m: Matching, start: set<nat>, seen: set<nat>) {
    forall d | d in seen && d !in start :: d in m && m[d] < |candidates| && Neighbours(candidates, m[d]) <= seen
  }

  /** A failed search leaves a set of drivers that are all taken and lead nowhere else. */
  ghost predicate DeadEnd(candidates: Candidates, m: Matching, seen: set<nat>, seen': set<nat>, v: nat)
    requires v < |candidates|
  {
    Neighbours(candidates, v) <= seen' && LeadsNowhere(candidates, m, seen, seen')
  }

  lemma AugmentDirectly(candidates: Candidates, m: Matching, seen: set<nat>, closed: set<nat>, v: nat, d: nat)
    requires Legal(candidates, m) && InjectiveOutside(m, seen) && v !in MatchedOutside(m, seen)
    requires IsClosed(candidates, m, closed)
    requires v < |candidates| && d in candidates[v] && d !in m && d !in seen
    ensures Augments(candidates, m, m[d := v], seen, closed, v)
  {
    var m' := m[d := v];
    forall e | e in m && e !in seen
      ensures m[e] in MatchedOutside(m', seen) && m[e] != v
    {
      assert m'[e] == m[e] && m[e] in MatchedOutside(m, seen);
    }
    assert m'[d] in MatchedOutside(m', seen);
  }

  /** What the inner search changed, seen from outside. */
  lemma InnerMates(m: Matching, m2: Matching, seen: set<nat>, inner: set<nat>, d: nat, e: nat)
    requires InjectiveOutside(m, seen) && d in m && d !in seen && seen + {d} <= inner
    requires MatchedOutside(m2, inner) == MatchedOutside(m, inner) + {m[d]}
    requires e in m2 && e !in inner
    ensures m2[e] in MatchedOutside(m, seen)
    ensures forall u | u in m && u in inner && u !in seen && u != d :: m2[e] != m[u]
  {
    assert m2[e] in MatchedOutside(m2, inner);
    if m2[e] == m[d] {
      assert m[d] in MatchedOutside(m, seen);
    } else {
      var w :| w in m && w !in inner && m[w] == m2[e];
    }
  }

  lemma PassedOnInjective(candidates: Candidates, m: Matching, m2: Matching, seen: set<nat>, inner: set<nat>,
      closed: set<nat>, v: nat, d: nat)
    requires InjectiveOutside(m, seen) && v !in MatchedOutside(m, seen)
    requires d in m && d !in seen && seen + {d} <= inner && forall e | e in inner && e !in seen :: e in m
    requires Augments(candidates, m, m2, inner, closed, m[d])
    ensures InjectiveOutside(m2[d := v], seen)
  {
    var m3 := m2[d := v];
    forall e | e in m3 && e !in seen && e != d
      ensures m3[e] != v
      ensures e in inner ==> m3[e] == m[e]
      ensures e !in inner ==> forall u | u in m && u in inner && u !in seen && u != d :: m3[e] != m[u]
    {
      if e in inner {
        assert m[e] in MatchedOutside(m, seen);
      } else {
        InnerMates(m, m2, seen, inner, d, e);
      }
    }
  }

  lemma PassedOnMates(candidates: Candidates, m: Matching, m2: Matching, seen: set<nat>, inner: set<nat>,
      closed: set<nat>, v: nat, d: nat)
    requires InjectiveOutside(m, seen)
    requires d in m && d !in seen && seen + {d} <= inner && forall e | e in inner && e !in seen :: e in m
    requires Augments(candidates, m, m2, inner, closed, m[d])
    ensures MatchedOutside(m2[d := v], seen) == MatchedOutside(m, seen) + {v}
  {
    hide InjectiveOutside, Legal;
    var m3 := m2[d := v];
    forall e | e in m3 && e !in seen
      ensures m3[e] in MatchedOutside(m, seen) + {v}
    {
      if e != d {
        if e in inner {
          assert m[e] in MatchedOutside(m, seen);
        } else {
          InnerMates(m, m2, seen, inner, d, e);
        }
      }
    }
    forall e | e in m && e !in seen
      ensures m[e] in MatchedOutside(m3, seen)
    {
      if e in inner && e != d {
        assert m3[e] == m[e];
      } else {
        assert m[e] in MatchedOutside(m, inner) + {m[d]};
        var u :| u in m2 && u !in inner && m2[u] == m[e];
        assert m3[u] == m[e];
      }
    }
    assert m3[d] in MatchedOutside(m3, seen);
  }

  /** Passing `d` on from its vehicle to `v`, after that vehicle found another driver. */
  lemma AugmentThrough(candidates: Candidates, m: Matching, m2: Matching, seen: set<nat>, inner: set<nat>,
      closed: set<nat>, v: nat, d: nat)
    requires Legal(candidates, m) && InjectiveOutside(m, seen) && v !in MatchedOutside(m, seen)
    requires v < |candidates| && d in candidates[v] && d in m && d !in seen && d !in closed
    requires seen + {d} <= inner && forall e | e in inner && e !in seen :: e in m
    requires Augments(candidates, m, m2, inner, closed, m[d])
    ensures Augments(candidates, m, m2[d := v], seen, closed, v)
  {
    hide InjectiveOutside, MatchedOutside;
    PassedOnInjective(candidates, m, m2, seen, inner, closed, v, d);
    PassedOnMates(candidates, m, m2, seen, inner, closed, v, d);
  }

  class Matcher {
    const candidates: Candidates
    const driverCount: nat
    var driverToVehicle: Matching
    var seenDrivers: set<nat>

    constructor (candidates: Candidates, driverCount: nat)
      ensures this.candidates == candidates && this.driverCount == driverCount
      ensures driverToVehicle == map[] && seenDrivers == {}
    {
      this.candidates, this.driverCount := candidates, driverCount;
      driverToVehicle, seenDrivers := map[], {};
    }

    ghost function Drivers(): set<nat> {
      FirstIndices(driverCount)
    }

    ghost predicate InRange() {
      forall v: nat, d: nat | v < |candidates| && d in candidates[v] :: d < driverCount
    }

    /** Look for a driver for `v`, moving other vehicles to other drivers if need be.
        `closed` collects what earlier failures have ruled out. */
    method Assign(v: nat, ghost closed: set<nat>) returns (ok: bool)
      requires InRange() && v < |candidates|
      requires Legal(candidates, driverToVehicle) && InjectiveOutside(driverToVehicle, seenDrivers)
      requires v !in MatchedOutside(driverToVehicle, seenDrivers)
      requires IsClosed(candidates, driverToVehicle, closed)
      modifies this
      ensures old(seenDrivers) <= seenDrivers
      ensures forall d | d in seenDrivers && d !in old(seenDrivers) :: d in Drivers()
      ensures !ok ==> driverToVehicle == old(driverToVehicle)
                      && DeadEnd(candidates, driverToVehicle, old(seenDrivers), seenDrivers, v)
      ensures ok ==> Augments(candidates, old(driverToVehicle), driverToVehicle, old(seenDrivers), closed, v)
      ensures Neighbours(candidates, v) <= closed ==> !ok
      ensures candidates[v] == [] ==> !ok
      ensures candidates[v] != [] && candidates[v][0] !in old(seenDrivers) && candidates[v][0] !in old(driverToVehicle)
              ==> driverToVehicle == old(driverToVehicle)[candidates[v][0] := v]
      decreases Drivers() - seenDrivers
    {
      hide Augments, InjectiveOutside, MatchedOutside, IsClosed, Legal, DeadEnd, LeadsNowhere;
      ghost var start := seenDrivers;
      ghost var m := driverToVehicle;
      NothingSeen(candidates, m, start);
      for k := 0 to |candidates[v]|
        invariant driverToVehicle == m
        invariant start <= seenDrivers
        invariant forall d | d in seenDrivers && d !in start :: d in Drivers()
        invariant forall j | 0 <= j < k :: candidates[v][j] in seenDrivers
        invariant LeadsNowhere(candidates, m, start, seenDrivers)
        invariant if k == 0 then seenDrivers == start else candidates[v][0] in start || candidates[v][0] in m
      {
        var driver := candidates[v][k];
        if driver in seenDrivers {
          continue;
        }
        ghost var before := seenDrivers;
        assert driver in candidates[v] && driver in Neighbours(candidates, v);
        seenDrivers := seenDrivers + {driver};
        assert driver in Drivers();
        if driver !in driverToVehicle {
          AugmentDirectly(candidates, m, start, closed, v, driver);
          ClosedIsTaken(candidates, m, closed, driver);
          driverToVehicle := driverToVehicle[driver := v];
          return true;
        }
        var previous := driverToVehicle[driver];
        ghost var inner := seenDrivers;
        BeforePassingOn(candidates, m, start, inner, driver);
        ClosedMate(candidates, m, closed, driver);
        var moved := Assign(previous, closed);
        if moved {
          SeenAreTaken(candidates, m, start, before);
          AugmentThrough(candidates, m, driverToVehicle, start, inner, closed, v, driver);
          driverToVehicle := driverToVehicle[driver := v];
          return true;
        }
        InnerDeadEnd(candidates, m, start, before, seenDrivers, driver);
      }
      AllSeen(candidates, m, start, seenDrivers, v);
      return false;
    }
  }

  lemma SeenAreTaken(candidates: Candidates, m: Matching, start: set<nat>, seen: set<nat>)
    requires LeadsNowhere(candidates, m, start, seen)
    ensures forall d | d in seen && d !in start :: d in m
  {
  }

  lemma NothingSeen(candidates: Candidates, m: Matching, seen: set<nat>)
    ensures LeadsNowhere(candidates, m, seen, seen)
  {
  }

  lemma InnerDeadEnd(candidates: Candidates, m: Matching, start: set<nat>, before: set<nat>, seen: set<nat>, d: nat)
    requires LeadsNowhere(candidates, m, start, before) && d in m && m[d] < |candidates|
    requires DeadEnd(candidates, m, before + {d}, seen, m[d]) && before + {d} <= seen
    ensures LeadsNowhere(candidates, m, start, seen)
  {
  }

  lemma AllSeen(candidates: Candidates, m: Matching, start: set<nat>, seen: set<nat>, v: nat)
    requires v < |candidates| && LeadsNowhere(candidates, m, start, seen)
    requires forall j | 0 <= j < |candidates[v]| :: candidates[v][j] in seen
    ensures DeadEnd(candidates, m, start, seen, v)
  {
  }

  lemma ClosedIsTaken(candidates: Candidates, m: Matching, closed: set<nat>, d: nat)
    requires IsClosed(candidates, m, closed) && d !in m
    ensures d !in closed
  {
  }

  lemma ClosedMate(candidates: Candidates, m: Matching, closed: set<nat>, d: nat)
    requires IsClosed(candidates, m, closed) && d in m && m[d] < |candidates|
    ensures d in closed ==> Neighbours(candidates, m[d]) <= closed
  {
  }

  lemma BeforePassingOn(candidates: Candidates, m: Matching, seen: set<nat>, inner: set<nat>, d: nat)
    requires Legal(candidates, m) && InjectiveOutside(m, seen)
    requires seen <= inner && d in inner && d !in seen && d in m
    ensures m[d] < |candidates|
    ensures InjectiveOutside(m, inner) && m[d] !in MatchedOutside(m, inner)
  {
  }

  // ---------- the whole matching ----------

  /** A one-to-one map has as many values as keys. */
  lemma {:induction false} InjectiveSize(m: Matching)
    requires forall d, e | d in m && e in m && d != e :: m[d] != m[e]
    ensures |m.Values| == |m.Keys|
    decreases |m|
  {
    if m == map[] {
      assert m.Values == {};
    } else {
      var d :| d in m;
      var rest := m - {d};
      InjectiveSize(rest);
      assert m.Keys == rest.Keys + {d};
      ValuesWithout(m, d);
    }
  }

  lemma ValuesWithout(m: Matching, d: nat)
    requires d in m && forall e | e in m && e != d :: m[e] != m[d]
    ensures m.Values == (m - {d}).Values + {m[d]} && m[d] !in (m - {d}).Values
  {
    var rest := m - {d};
    forall x | x in m.Values
      ensures x in rest.Values + {m[d]}
    {
      var e :| e in m && m[e] == x;
      if e != d { assert rest[e] == x; }
    }
    forall x | x in rest.Values
      ensures x in m.Values && x != m[d]
    {
      var e :| e in rest && rest[e] == x;
      assert m[e] == x;
    }
  }

  /** The vehicles that hold the drivers of `closed`. */
  ghost function Holders(m: Matching, closed: set<nat>): set<nat>
    requires closed <= m.Keys
  {
    set d | d in closed :: m[d]
  }

  lemma HoldersSize(candidates: Candidates, m: Matching, closed: set<nat>)
    requires IsMatching(candidates, m) && closed <= m.Keys
    ensures |Holders(m, closed)| == |closed| && Holders(m, closed) <= m.Values
  {
    var held := map d | d in closed :: m[d];
    InjectiveSize(held);
    assert held.Keys == closed && held.Values == Holders(m, closed);
  }

  /** Of the drivers of any matching, those with a vehicle in `stuck` are in `closed`,
      and the others have distinct vehicles outside `stuck`. */
  lemma StuckVehiclesBound(candidates: Candidates, other: Matching, stuck: set<nat>, closed: set<nat>)
    requires IsMatching(candidates, other) && stuck <= FirstIndices(|candidates|)
    requires forall v | v in stuck :: Neighbours(candidates, v) <= closed
    ensures |other.Keys| <= |closed| + |candidates| - |stuck|
  {
    var inside := set d | d in other && other[d] in stuck;
    var outside := map d | d in other && other[d] !in stuck :: other[d];
    assert inside <= closed by { DriversInside(candidates, other, stuck, closed); }
    assert |outside.Keys| <= |candidates| - |stuck| by { VehiclesOutside(|candidates|, outside, stuck); }
    hide IsMatching, Neighbours;
    SubsetSize(inside, closed);
    assert other.Keys == inside + outside.Keys;
    assert |inside + outside.Keys| <= |inside| + |outside.Keys|;
  }

  lemma DriversInside(candidates: Candidates, other: Matching, stuck: set<nat>, closed: set<nat>)
    requires IsMatching(candidates, other)
    requires forall v | v in stuck && v < |candidates| :: Neighbours(candidates, v) <= closed
    ensures (set d | d in other && other[d] in stuck) <= closed
  {
    forall d | d in other && other[d] in stuck
      ensures d in closed
    {
      assert d in Neighbours(candidates, other[d]);
    }
  }

  lemma VehiclesOutside(n: nat, outside: Matching, stuck: set<nat>)
    requires forall d, e | d in outside && e in outside && d != e :: outside[d] != outside[e]
    requires forall d | d in outside :: outside[d] < n && outside[d] !in stuck
    requires stuck <= FirstIndices(n)
    ensures |outside.Keys| <= n - |stuck|
  {
    var all := FirstIndices(n);
    InjectiveSize(outside);
    SubsetSize(outside.Values, all - stuck);
    assert |all - stuck| == |all| - |stuck|;
  }

  /** Hall's condition, counted: when the failed vehicles can use only drivers whose
      vehicles can use no others, no matching takes more vehicles than this one. */
  lemma DeadEndsMakeMaximum(candidates: Candidates, m: Matching, failed: set<nat>, closed: set<nat>, other: Matching)
    requires IsMatching(candidates, m) && IsMatching(candidates, other)
    requires IsClosed(candidates, m, closed)
    requires failed <= FirstIndices(|candidates|) && forall v | v in failed :: Neighbours(candidates, v) <= closed
    requires m.Values == FirstIndices(|candidates|) - failed
    ensures |other.Keys| <= |m.Keys|
  {
    hide Neighbours;
    var all, holders := FirstIndices(|candidates|), Holders(m, closed);
    HoldersSize(candidates, m, closed);
    StuckVehiclesBound(candidates, other, failed + holders, closed);
    assert failed !! holders;
    InjectiveSize(m);
    assert |all - failed| == |all| - |failed|;
  }

  lemma AugmentedMatching(candidates: Candidates, m: Matching, m': Matching, closed: set<nat>, v: nat)
    requires IsMatching(candidates, m) && IsClosed(candidates, m, closed)
    requires Augments(candidates, m, m', {}, closed, v)
    ensures IsMatching(candidates, m') && IsClosed(candidates, m', closed)
    ensures m'.Values == m.Values + {v}
  {
    assert MatchedOutside(m', {}) == m'.Values && MatchedOutside(m, {}) == m.Values;
  }

  lemma FailureClosesMore(candidates: Candidates, m: Matching, closed: set<nat>, seen: set<nat>, v: nat)
    requires IsClosed(candidates, m, closed) && v < |candidates| && DeadEnd(candidates, m, {}, seen, v)
    ensures IsClosed(candidates, m, closed + seen) && Neighbours(candidates, v) <= closed + seen
  {
  }

  /** The handled vehicles are matched or have failed, and what the failed ones can use
      is closed. */
  ghost predicate Progress(candidates: Candidates, m: Matching, handled: set<nat>, failed: set<nat>, closed: set<nat>) {
    && IsMatching(candidates, m) && IsClosed(candidates, m, closed)
    && failed <= handled <= FirstIndices(|candidates|) && m.Values == handled - failed
    && forall v | v in failed :: Neighbours(candidates, v) <= closed
  }

  lemma MatchedOne(candidates: Candidates, m: Matching, m': Matching, handled: set<nat>, failed: set<nat>,
      closed: set<nat>, v: nat)
    requires Progress(candidates, m, handled, failed, closed) && v < |candidates| && v !in handled
    requires Augments(candidates, m, m', {}, closed, v)
    ensures Progress(candidates, m', handled + {v}, failed, closed)
  {
    hide Augments, IsClosed, IsMatching, Neighbours;
    AugmentedMatching(candidates, m, m', closed, v);
  }

  lemma FailedOne(candidates: Candidates, m: Matching, handled: set<nat>, failed: set<nat>, closed: set<nat>,
      seen: set<nat>, v: nat)
    requires Progress(candidates, m, handled, failed, closed) && v < |candidates| && v !in handled
    requires DeadEnd(candidates, m, {}, seen, v)
    ensures Progress(candidates, m, handled + {v}, failed + {v}, closed + seen)
  {
    hide IsClosed, IsMatching, Neighbours, DeadEnd;
    FailureClosesMore(candidates, m, closed, seen, v);
  }

  lemma AllHandled(candidates: Candidates, m: Matching, failed: set<nat>, closed: set<nat>)
    requires Progress(candidates, m, FirstIndices(|candidates|), failed, closed)
    ensures IsMatching(candidates, m)
    ensures forall other | IsMatching(candidates, other) :: |other.Keys| <= |m.Keys|
  {
    hide IsClosed, IsMatching, Neighbours;
    forall other | IsMatching(candidates, other)
      ensures |other.Keys| <= |m.Keys|
    {
      DeadEndsMakeMaximum(candidates, m, failed, closed, other);
    }
  }

  /** No driver is the first choice of two vehicles. */
  ghost predicate FirstChoicesDiffer(candidates: Candidates) {
    forall v, w | 0 <= v < w < |candidates| && candidates[v] != [] && candidates[w] != [] ::
      candidates[v][0] != candidates[w][0]
  }

  ghost predicate HasFirstChoice(candidates: Candidates, m: Matching, v: nat)
    requires v < |candidates|
  {
    candidates[v] != [] ==> candidates[v][0] in m && m[candidates[v][0]] == v
  }

  /** The vehicles handled have their first choices, and nothing else is matched. */
  ghost predicate AllFirstChoices(candidates: Candidates, m: Matching, handled: set<nat>) {
    && (forall v | v in handled :: v < |candidates| && HasFirstChoice(candidates, m, v))
    && forall d | d in m ::
         m[d] in handled && m[d] < |candidates| && candidates[m[d]] != [] && candidates[m[d]][0] == d
  }

  lemma FirstChoiceIsFree(candidates: Candidates, m: Matching, handled: set<nat>, v: nat)
    requires FirstChoicesDiffer(candidates) && AllFirstChoices(candidates, m, handled)
    requires v < |candidates| && v !in handled
    ensures candidates[v] != [] ==>
              candidates[v][0] !in m && AllFirstChoices(candidates, m[candidates[v][0] := v], handled + {v})
    ensures candidates[v] == [] ==> AllFirstChoices(candidates, m, handled + {v})
  {
  }

  /** Match the vehicles in the given order: the result is a legal one-to-one matching,
      and no legal one-to-one matching takes more vehicles. */
  method MatchInOrder(candidates: Candidates, driverCount: nat, order: seq<nat>) returns (m: Matching)
    requires forall v: nat, d: nat | v < |candidates| && d in candidates[v] :: d < driverCount
    requires forall j, k | 0 <= j < k < |order| :: order[j] != order[k]
    requires forall v: nat :: v in order <==> v < |candidates|
    ensures IsMatching(candidates, m)
    ensures forall other | IsMatching(candidates, other) :: |other.Keys| <= |m.Keys|
    ensures FirstChoicesDiffer(candidates) ==>
              forall v | 0 <= v < |candidates| :: HasFirstChoice(candidates, m, v)
  {
    hide FirstChoicesDiffer, AllFirstChoices, Progress, Augments, IsClosed, IsMatching, Neighbours, DeadEnd, Legal,
        InjectiveOutside, MatchedOutside;
    var matcher := new Matcher(candidates, driverCount);
    ghost var failed: set<nat> := {};
    ghost var closed: set<nat> := {};
    ghost var handled: set<nat> := {};
    EmptyMatching(candidates);
    for k := 0 to |order|
      invariant matcher.candidates == candidates && matcher.driverCount == driverCount
      invariant Progress(candidates, matcher.driverToVehicle, handled, failed, closed)
      invariant forall v: nat :: v in handled <==> v in order[..k]
      invariant FirstChoicesDiffer(candidates) ==> AllFirstChoices(candidates, matcher.driverToVehicle, handled)
    {
      var v := order[k];
      assert v in order && v !in order[..k];
      assert order[..k + 1] == order[..k] + [v];
      matcher.seenDrivers := {};
      ghost var m0 := matcher.driverToVehicle;
      MatchingIsReady(candidates, m0, handled, failed, closed, v);
      if FirstChoicesDiffer(candidates) {
        FirstChoiceIsFree(candidates, m0, handled, v);
      }
      var ok := matcher.Assign(v, closed);
      if ok {
        MatchedOne(candidates, m0, matcher.driverToVehicle, handled, failed, closed, v);
      } else {
        FailedOne(candidates, m0, handled, failed, closed, matcher.seenDrivers, v);
        closed := closed + matcher.seenDrivers;
        failed := failed + {v};
      }
      handled := handled + {v};
    }
    assert order[..|order|] == order;
    assert handled == FirstIndices(|candidates|);
    m := matcher.driverToVehicle;
    AllHandled(candidates, m, failed, closed);
    if FirstChoicesDiffer(candidates) {
      AllHaveFirstChoices(candidates, m, handled);
    }
  }

  lemma AllHaveFirstChoices(candidates: Candidates, m: Matching, handled: set<nat>)
    requires AllFirstChoices(candidates, m, handled) && forall v: nat :: v in handled <==> v < |candidates|
    ensures forall v | 0 <= v < |candidates| :: HasFirstChoice(candidates, m, v)
  {
  }

  lemma EmptyMatching(candidates: Candidates)
    ensures Progress(candidates, map[], {}, {}, {}) && AllFirstChoices(candidates, map[], {})
  {
    var empty: Matching := map[];
    assert empty.Values == {};
  }

  lemma MatchingIsReady(candidates: Candidates, m: Matching, handled: set<nat>, failed: set<nat>, closed: set<nat>,
      v: nat)
    requires Progress(candidates, m, handled, failed, closed) && v !in handled
    ensures Legal(candidates, m) && InjectiveOutside(m, {}) && v !in MatchedOutside(m, {})
    ensures IsClosed(candidates, m, closed)
  {
    assert MatchedOutside(m, {}) == m.Values;
  }

  // ---------- the two runs ----------

  /** `candidates` lists, for each vehicle, exactly the drivers that may take it. */
  ghost predicate ListsLegalPairs(vehicles: seq<Vehicle>, drivers: seq<Driver>, candidates: Candidates) {
    && |candidates| == |vehicles|
    && forall v | 0 <= v < |vehicles| :: ListsLegal(vehicles[v], drivers, candidates[v])
  }

  ghost predicate ListsLegal(vehicle: Vehicle, drivers: seq<Driver>, list: seq<nat>) {
    forall d: nat :: d in list <==> d < |drivers| && IsLegalPair(vehicle, drivers[d])
  }

  /** One-to-one, each vehicle with a driver who may take it on its day. */
  ghost predicate IsLegalMatching(vehicles: seq<Vehicle>, drivers: seq<Driver>, m: Matching) {
    && (forall d | d in m :: d < |drivers| && m[d] < |vehicles| && IsLegalPair(vehicles[m[d]], drivers[d]))
    && forall d, e | d in m && e in m && d != e :: m[d] != m[e]
  }

  ghost predicate IsMaximumMatching(vehicles: seq<Vehicle>, drivers: seq<Driver>, m: Matching) {
    && IsLegalMatching(vehicles, drivers, m)
    && forall other | IsLegalMatching(vehicles, drivers, other) :: |other.Keys| <= |m.Keys|
  }

  /** These vehicles can all have a driver at once, and no more vehicles can. */
  ghost predicate IsDriverSafe(vehicles: seq<Vehicle>, drivers: seq<Driver>, safe: set<nat>) {
    exists m :: IsMaximumMatching(vehicles, drivers, m) && m.Values == safe
  }

  lemma MatchingIffLegal(vehicles: seq<Vehicle>, drivers: seq<Driver>, candidates: Candidates, m: Matching)
    requires ListsLegalPairs(vehicles, drivers, candidates)
    ensures IsMatching(candidates, m) <==> IsLegalMatching(vehicles, drivers, m)
  {
    forall d | d in m && m[d] < |vehicles|
      ensures d in candidates[m[d]] <==> d < |drivers| && IsLegalPair(vehicles[m[d]], drivers[d])
    {
      assert ListsLegal(vehicles[m[d]], drivers, candidates[m[d]]);
    }
  }

  lemma MaximumAmongLegal(vehicles: seq<Vehicle>, drivers: seq<Driver>, candidates: Candidates, m: Matching)
    requires ListsLegalPairs(vehicles, drivers, candidates) && IsMatching(candidates, m)
    requires forall other | IsMatching(candidates, other) :: |other.Keys| <= |m.Keys|
    ensures IsMaximumMatching(vehicles, drivers, m)
  {
    hide IsMatching, IsLegalMatching, ListsLegalPairs;
    MatchingIffLegal(vehicles, drivers, candidates, m);
    forall other | IsLegalMatching(vehicles, drivers, other)
      ensures |other.Keys| <= |m.Keys|
    {
      MatchingIffLegal(vehicles, drivers, candidates, other);
    }
  }

  lemma CandidatesInRange(vehicles: seq<Vehicle>, drivers: seq<Driver>, candidates: Candidates)
    requires ListsLegalPairs(vehicles, drivers, candidates)
    ensures forall v: nat, d: nat | v < |candidates| && d in candidates[v] :: d < |drivers|
  {
    forall v: nat, d: nat | v < |candidates| && d in candidates[v]
      ensures d < |drivers|
    {
      assert ListsLegal(vehicles[v], drivers, candidates[v]);
    }
  }

  method LegalDrivers(vehicle: Vehicle, drivers: seq<Driver>) returns (list: seq<nat>)
    ensures ListsLegal(vehicle, drivers, list)
    ensures forall j, k | 0 <= j < k < |list| :: list[j] < list[k]
  {
    list := [];
    for i := 0 to |drivers|
      invariant forall d: nat :: d in list <==> d < i && IsLegalPair(vehicle, drivers[d])
      invariant forall j, k | 0 <= j < k < |list| :: list[j] < list[k]
      invariant forall j | 0 <= j < |list| :: list[j] < i
    {
      if IsLegalPair(vehicle, drivers[i]) {
        list := list + [i];
      }
    }
  }

  function Indices(n: nat): (r: seq<nat>)
    ensures |r| == n && forall k | 0 <= k < n :: r[k] == k
  {
    seq(n, k requires 0 <= k < n => k)
  }

  /** Vehicles and drivers in index order. */
  method FindDriverSafeVehicleIndices(vehicles: seq<Vehicle>, drivers: seq<Driver>)
    returns (safe: set<nat>)
    ensures IsDriverSafe(vehicles, drivers, safe)
    ensures forall other | IsLegalMatching(vehicles, drivers, other) :: |other.Values| <= |safe|
  {
    var lists: Candidates := [];
    for v := 0 to |vehicles|
      invariant |lists| == v
      invariant forall u | 0 <= u < v :: ListsLegal(vehicles[u], drivers, lists[u])
    {
      var list := LegalDrivers(vehicles[v], drivers);
      lists := lists + [list];
    }
    SortedIndices(|vehicles|, Indices(|vehicles|));
    CandidatesInRange(vehicles, drivers, lists);
    var matching := MatchInOrder(lists, |drivers|, Indices(|vehicles|));
    MaximumAmongLegal(vehicles, drivers, lists, matching);
    safe := matching.Values;
    InjectiveSize(matching);
    forall other | IsLegalMatching(vehicles, drivers, other)
      ensures |other.Values| <= |safe|
    {
      InjectiveSize(other);
    }
  }

  predicate CheaperDriver(drivers: seq<Driver>, i: nat, j: nat) {
    if i < |drivers| && j < |drivers| then
      var a, b := drivers[i], drivers[j];
      if a.tripBasePay != b.tripBasePay then a.tripBasePay < b.tripBasePay
      else if a.perKmPay != b.perKmPay then a.perKmPay < b.perKmPay
      else if a.monthlySalary != b.monthlySalary then a.monthlySalary < b.monthlySalary
      else a.id <= b.id
    else j >= |drivers|
  }

  predicate FewerChoices(candidates: Candidates, v: nat, w: nat) {
    if v < |candidates| && w < |candidates| then
      if |candidates[v]| != |candidates[w]| then |candidates[v]| < |candidates[w]| else v <= w
    else true
  }

  /** Sorting the indices by anything visits each of them once. */
  lemma SortedIndices(n: nat, order: seq<nat>)
    requires multiset(order) == multiset(Indices(n))
    ensures forall j, k | 0 <= j < k < |order| :: order[j] != order[k]
    ensures forall v: nat :: v in order <==> v < n
  {
    SameMembers(order, Indices(n));
    forall v: nat
      ensures v in order <==> v < n
    {
      if v < n { assert Indices(n)[v] == v; }
    }
    forall j, k | 0 <= j < k < |order|
      ensures order[j] != order[k]
    {
      if order[j] == order[k] {
        TwiceListed(order, j, k);
        IndexOnce(n, order[j]);
      }
    }
  }

  lemma TwiceListed(s: seq<nat>, j: nat, k: nat)
    requires j < k < |s| && s[j] == s[k]
    ensures multiset(s)[s[j]] >= 2
  {
    assert s == s[..k] + s[k..] && s[j] in s[..k] && s[k] in s[k..];
  }

  lemma {:induction false} IndexOnce(n: nat, v: nat)
    requires v < n
    ensures multiset(Indices(n))[v] == 1
  {
    var s := Indices(n);
    assert s == s[..v] + [v] + s[v + 1..];
    assert v !in s[..v] && v !in s[v + 1..];
  }

  /** Less basic pay for a trip; or as much and less for the distance; or less salary; or
      else the smaller number. */
  ghost predicate NoDearer(a: Driver, b: Driver) {
    || a.tripBasePay < b.tripBasePay
    || (a.tripBasePay == b.tripBasePay && a.perKmPay < b.perKmPay)
    || (a.tripBasePay == b.tripBasePay && a.perKmPay == b.perKmPay && a.monthlySalary < b.monthlySalary)
    || (a.tripBasePay == b.tripBasePay && a.perKmPay == b.perKmPay && a.monthlySalary == b.monthlySalary
        && a.id <= b.id)
  }

  /** Of the drivers who may take the vehicle, none is cheaper. */
  ghost predicate IsCheapestFor(vehicles: seq<Vehicle>, drivers: seq<Driver>, v: nat, d: nat) {
    && v < |vehicles| && d < |drivers| && IsLegalPair(vehicles[v], drivers[d])
    && forall e | 0 <= e < |drivers| && IsLegalPair(vehicles[v], drivers[e]) :: NoDearer(drivers[d], drivers[e])
  }

  ghost predicate CheapestAreShared(vehicles: seq<Vehicle>, drivers: seq<Driver>) {
    exists v: nat, w: nat, d: nat ::
      v != w && IsCheapestFor(vehicles, drivers, v, d) && IsCheapestFor(vehicles, drivers, w, d)
  }

  /** The vehicle goes to one of its cheapest drivers, if it has any. */
  ghost predicate GoesToCheapest(vehicles: seq<Vehicle>, drivers: seq<Driver>, m: Matching, v: nat)
    requires v < |vehicles|
  {
    (exists d: nat :: d < |drivers| && IsLegalPair(vehicles[v], drivers[d])) ==>
      exists d: nat :: d in m && m[d] == v && IsCheapestFor(vehicles, drivers, v, d)
  }

  ghost predicate StartsCheapest(vehicles: seq<Vehicle>, drivers: seq<Driver>, v: nat, list: seq<nat>) {
    list != [] ==> IsCheapestFor(vehicles, drivers, v, list[0])
  }

  method CheapestFirst(drivers: seq<Driver>, list: seq<nat>) returns (cheapest: seq<nat>)
    requires forall i | i in list :: i < |drivers|
    ensures forall i :: i in cheapest <==> i in list
    ensures cheapest != [] ==>
              forall i | i in list :: cheapest[0] < |drivers| && NoDearer(drivers[cheapest[0]], drivers[i])
  {
    var leq := (i: nat, j: nat) => CheaperDriver(drivers, i, j);
    cheapest := SortBy<nat>(list, leq);
    SameMembers(cheapest, list);
    assert TotalPreorder<nat>(leq);
    SortBySorted<nat>(list, leq);
    forall i | i in list && cheapest != []
      ensures cheapest[0] < |drivers| && NoDearer(drivers[cheapest[0]], drivers[i])
    {
      assert cheapest[0] in cheapest && i in cheapest;
      var k :| 0 <= k < |cheapest| && cheapest[k] == i;
      assert k == 0 || leq(cheapest[0], cheapest[k]);
    }
  }

  lemma HeadIsCheapest(vehicles: seq<Vehicle>, drivers: seq<Driver>, v: nat, list: seq<nat>)
    requires v < |vehicles| && ListsLegal(vehicles[v], drivers, list)
    requires list != [] ==> forall i | i in list :: list[0] < |drivers| && NoDearer(drivers[list[0]], drivers[i])
    ensures StartsCheapest(vehicles, drivers, v, list)
  {
    hide NoDearer;
    if list != [] {
      assert list[0] in list;
      forall e | 0 <= e < |drivers| && IsLegalPair(vehicles[v], drivers[e])
        ensures NoDearer(drivers[list[0]], drivers[e])
      {
        assert e in list;
      }
    }
  }

  lemma FirstChoicesAreCheapest(vehicles: seq<Vehicle>, drivers: seq<Driver>, candidates: Candidates, m: Matching)
    requires ListsLegalPairs(vehicles, drivers, candidates) && !CheapestAreShared(vehicles, drivers)
    requires forall v | 0 <= v < |candidates| :: StartsCheapest(vehicles, drivers, v, candidates[v])
    ensures FirstChoicesDiffer(candidates)
    ensures (forall v | 0 <= v < |candidates| :: HasFirstChoice(candidates, m, v)) ==>
              forall v | 0 <= v < |vehicles| :: GoesToCheapest(vehicles, drivers, m, v)
  {
    hide IsCheapestFor;
    forall v, w | 0 <= v < w < |candidates| && candidates[v] != [] && candidates[w] != []
      ensures candidates[v][0] != candidates[w][0]
    {
      assert StartsCheapest(vehicles, drivers, v, candidates[v]) && StartsCheapest(vehicles, drivers, w, candidates[w]);
    }
    if forall v | 0 <= v < |candidates| :: HasFirstChoice(candidates, m, v) {
      forall v | 0 <= v < |vehicles|
        ensures GoesToCheapest(vehicles, drivers, m, v)
      {
        assert ListsLegal(vehicles[v], drivers, candidates[v]);
        assert HasFirstChoice(candidates, m, v) && StartsCheapest(vehicles, drivers, v, candidates[v]);
        if d: nat :| d < |drivers| && IsLegalPair(vehicles[v], drivers[d]) {
          assert d in candidates[v];
        }
      }
    }
  }

  /** Cheapest drivers first, vehicles with the fewest choices first. When no driver is the
      cheapest of two vehicles, each vehicle gets its own cheapest one. */
  method MatchedVehicleDriverIndices(vehicles: seq<Vehicle>, drivers: seq<Driver>)
    returns (m: Matching)
    ensures IsMaximumMatching(vehicles, drivers, m)
    ensures !CheapestAreShared(vehicles, drivers) ==>
              forall v | 0 <= v < |vehicles| :: GoesToCheapest(vehicles, drivers, m, v)
  {
    hide CheapestAreShared, StartsCheapest, NoDearer, GoesToCheapest, FirstChoicesDiffer, HasFirstChoice, IsMatching,
        IsMaximumMatching;
    var lists: Candidates := [];
    for v := 0 to |vehicles|
      invariant |lists| == v
      invariant forall u | 0 <= u < v :: ListsLegal(vehicles[u], drivers, lists[u])
      invariant forall u | 0 <= u < v :: StartsCheapest(vehicles, drivers, u, lists[u])
    {
      var list := LegalDrivers(vehicles[v], drivers);
      var cheapest := CheapestFirst(drivers, list);
      HeadIsCheapest(vehicles, drivers, v, cheapest);
      lists := lists + [cheapest];
    }
    var order := SortBy(Indices(|vehicles|), (v: nat, w: nat) => FewerChoices(lists, v, w));
    SortedIndices(|vehicles|, order);
    CandidatesInRange(vehicles, drivers, lists);
    m := MatchInOrder(lists, |drivers|, order);
    MaximumAmongLegal(vehicles, drivers, lists, m);
    if !CheapestAreShared(vehicles, drivers) {
      FirstChoicesAreCheapest(vehicles, drivers, lists, m);
    }
  }

  /** Whatever the order of trial, both runs match equally many vehicles. */
  lemma BothRunsAgreeOnSize(vehicles: seq<Vehicle>, drivers: seq<Driver>, safe: set<nat>, m: Matching)
    requires IsDriverSafe(vehicles, drivers, safe) && IsMaximumMatching(vehicles, drivers, m)
    ensures |safe| == |m.Keys|
  {
    var n :| IsMaximumMatching(vehicles, drivers, n) && n.Values == safe;
    InjectiveSize(n);
  }
}
