/** Inventory transactions: each either takes full effect or none, and all of them keep
    balances, reservations and ledger in agreement. */
module InventoryService {
  import opened Prelude
  import opened StockAccounts
  import MapSums

  datatype Outcome = Done | BadRequest | NotFound | Forbidden | Conflict

  datatype Line = Line(sku: nat, quantity: nat)

  datatype Delta = Delta(sku: nat, quantity: int)

  // ---------- what reserving asks for ----------

  ghost predicate DistinctSkus(lines: seq<Line>) {
    forall j, k | 0 <= j < k < |lines| :: lines[j].sku != lines[k].sku
  }

  function Skus(lines: seq<Line>): set<nat> {
    set i | 0 <= i < |lines| :: lines[i].sku
  }

  /** Counting the different SKUs tells whether one is repeated. */
  lemma {:induction false} DistinctIffAsMany(lines: seq<Line>)
    ensures |Skus(lines)| <= |lines|
    ensures |Skus(lines)| == |lines| <==> DistinctSkus(lines)
  {
    if lines == [] {
    } else {
      var last := |lines| - 1;
      var before := lines[..last];
      DistinctIffAsMany(before);
      assert Skus(lines) == Skus(before) + {lines[last].sku} by {
        assert forall i | 0 <= i < last :: lines[i] == before[i];
      }
      if DistinctSkus(lines) {
        assert DistinctSkus(before) && lines[last].sku !in Skus(before);
      }
      if DistinctSkus(before) && lines[last].sku !in Skus(before) {
        forall j, k | 0 <= j < k < |lines|
          ensures lines[j].sku != lines[k].sku
        {
          assert before[j].sku in Skus(before);
        }
      }
    }
  }

  function LineSum(location: nat, lines: seq<Line>, k: Key): nat {
    if lines == [] then 0
    else
      var last := lines[|lines| - 1];
      LineSum(location, lines[..|lines| - 1], k) + if k == Key(last.sku, location) then last.quantity else 0
  }

  function Sellable(b: Balance): int {
    Max(0, b.onHand - b.reserved - b.safetyBuffer)
  }

  ghost predicate CanReserve(s: Stock, location: nat, lines: seq<Line>) {
    && DistinctSkus(lines)
    && forall i | 0 <= i < |lines| :: CanReserveLine(s, location, lines[i])
  }

  ghost predicate CanReserveLine(s: Stock, location: nat, line: Line) {
    var k := Key(line.sku, location);
    k in s.balances && !Undercuts(s.balances[k], line.quantity)
  }

  /** Taking this much would leave less than the safety buffer. */
  ghost predicate Undercuts(b: Balance, quantity: nat) {
    b.onHand - b.reserved - quantity < b.safetyBuffer
  }

  ghost predicate KeepsBuffers(s: Stock, location: nat, lines: seq<Line>) {
    forall i | 0 <= i < |lines| ::
      var k := Key(lines[i].sku, location);
      k in s.balances && s.balances[k].onHand - s.balances[k].reserved >= s.balances[k].safetyBuffer
  }

  /** Some line asks for a SKU without a balance. */
  ghost predicate SomeUnknown(s: Stock, location: nat, lines: seq<Line>) {
    exists i :: 0 <= i < |lines| && Key(lines[i].sku, location) !in s.balances
  }

  ghost predicate SomeUndercuts(s: Stock, location: nat, lines: seq<Line>) {
    exists i :: 0 <= i < |lines| && LineUndercuts(s, location, lines[i])
  }

  ghost predicate LineUndercuts(s: Stock, location: nat, line: Line) {
    var k := Key(line.sku, location);
    k in s.balances && Undercuts(s.balances[k], line.quantity)
  }

  /** What each outcome of a reservation tells about the stock it was tried on. */
  ghost predicate Explains(outcome: Outcome, s: Stock, location: nat, lines: seq<Line>) {
    && outcome in {Done, BadRequest, NotFound, Conflict}
    && (outcome == Done <==> CanReserve(s, location, lines))
    && (outcome == BadRequest <==> !DistinctSkus(lines))
    && (outcome == NotFound ==> SomeUnknown(s, location, lines))
    && (outcome == Conflict ==> SomeUndercuts(s, location, lines))
    && (DistinctSkus(lines) && !SomeUnknown(s, location, lines) ==>
          (outcome == Conflict <==> SomeUndercuts(s, location, lines)))
  }

  function RowFor(order: Option<nat>, location: nat, line: Line): Reservation {
    Reservation(order, Key(line.sku, location), line.quantity, Active)
  }

  function RowsFor(order: Option<nat>, location: nat, lines: seq<Line>): (rows: seq<Reservation>)
    ensures |rows| == |lines|
  {
    seq(|lines|, i requires 0 <= i < |lines| => RowFor(order, location, lines[i]))
  }

  /** The stock with these lines reserved: one new row each, reserved amounts up by the
      lines' quantities, nothing else different. */
  ghost predicate IsReserved(s: Stock, order: Option<nat>, location: nat, lines: seq<Line>, s': Stock) {
    && s'.ledger == s.ledger
    && s'.reservations == s.reservations + RowsFor(order, location, lines)
    && s'.balances.Keys == s.balances.Keys
    && forall k | k in s.balances ::
         s'.balances[k] == s.balances[k].(reserved := s.balances[k].reserved + LineSum(location, lines, k))
  }

  lemma NoLineNoSum(location: nat, lines: seq<Line>, k: Key)
    requires forall i | 0 <= i < |lines| :: Key(lines[i].sku, location) != k
    ensures LineSum(location, lines, k) == 0
  {
  }

  lemma ReservedOneMore(s: Stock, order: Option<nat>, location: nat, lines: seq<Line>, i: nat, s': Stock)
    requires i < |lines| && IsReserved(s, order, location, lines[..i], s')
    requires Key(lines[i].sku, location) in s.balances
    ensures IsReserved(s, order, location, lines[..i + 1],
              Reserved(s', order, Key(lines[i].sku, location), lines[i].quantity))
  {
    assert lines[..i + 1][..i] == lines[..i];
    assert RowsFor(order, location, lines[..i + 1]) ==
           RowsFor(order, location, lines[..i]) + [RowFor(order, location, lines[i])];
  }

  // ---------- what settling asks for ----------

  function PickedOf(picked: map<nat, nat>, sku: nat): nat {
    if sku in picked then picked[sku] else 0
  }

  /** Every picked amount is covered by the order's reservations and is there. */
  ghost predicate CanSettle(s: Stock, order: nat, location: nat, picked: map<nat, nat>) {
    forall sku | sku in picked && picked[sku] > 0 ::
      var k := Key(sku, location);
      && picked[sku] <= Quantity(s.reservations, HeldFor(order, k))
      && k in s.balances && picked[sku] <= s.balances[k].onHand
  }

  /** Exactly the picked amounts left the stock; all the order had reserved here is free;
      its rows still add up to what it once booked; nothing else is different. */
  ghost predicate IsSettled(s: Stock, order: nat, location: nat, picked: map<nat, nat>, s': Stock) {
    && s'.balances.Keys == s.balances.Keys
    && (forall k: Key | k in s.balances ::
          var here := k.location == location;
          && s'.balances[k].onHand == s.balances[k].onHand - (if here then PickedOf(picked, k.sku) else 0)
          && s'.balances[k].reserved ==
             s.balances[k].reserved - (if here then Quantity(s.reservations, HeldFor(order, k)) else 0)
          && s'.balances[k].safetyBuffer == s.balances[k].safetyBuffer)
    && (forall k: Key ::
          Net(s'.ledger, k) == Net(s.ledger, k) - if k.location == location then PickedOf(picked, k.sku) else 0)
    && (forall f: Filter | !f.activeOnly :: Quantity(s'.reservations, f) == Quantity(s.reservations, f))
    && Quantity(s'.reservations, AllHeldFor(order, location)) == 0
  }

  /** How far settling has come for one key: `committed` of `processed` reserved pieces. */
  ghost predicate SettledSoFar(s: Stock, order: nat, location: nat, picked: map<nat, nat>, remaining: map<nat, nat>,
      s': Stock, k: Key) {
    var processed := Quantity(s.reservations, HeldFor(order, k)) - Quantity(s'.reservations, HeldFor(order, k));
    var committed := if k.location == location then Min(PickedOf(picked, k.sku), processed) else 0;
    && processed >= 0 && (k.location != location ==> processed == 0)
    && (k in s'.balances <==> k in s.balances)
    && (k in s.balances ==>
          && s'.balances[k].onHand == s.balances[k].onHand - committed
          && s'.balances[k].reserved == s.balances[k].reserved - processed
          && s'.balances[k].safetyBuffer == s.balances[k].safetyBuffer)
    && Net(s'.ledger, k) == Net(s.ledger, k) - committed
    && (k.location == location ==> PickedOf(remaining, k.sku) == PickedOf(picked, k.sku) - committed)
  }

  lemma SettleStarts(s: Stock, order: nat, location: nat, picked: map<nat, nat>, k: Key)
    ensures SettledSoFar(s, order, location, picked, picked, s, k)
  {
  }

  lemma SettleGoesOn(s: Stock, order: nat, location: nat, picked: map<nat, nat>, remaining: map<nat, nat>, s': Stock,
                     id: nat, commit: nat, k: Key)
    requires SettledSoFar(s, order, location, picked, remaining, s', k)
    requires id < |s'.reservations| && s'.reservations[id].status == Active && s'.reservations[id].key in s'.balances
    requires s'.reservations[id].order == Some(order) && s'.reservations[id].key.location == location
    requires commit == Min(s'.reservations[id].quantity, PickedOf(remaining, s'.reservations[id].key.sku))
    ensures var sku := s'.reservations[id].key.sku;
            SettledSoFar(s, order, location, picked, remaining[sku := PickedOf(remaining, sku) - commit],
                         SettledAt(s', id, commit), k)
  {
    hide Quantity, Net;
    SettledChanges(s', id, commit, HeldFor(order, k), k);
  }

  lemma SettleEnds(s: Stock, order: nat, location: nat, picked: map<nat, nat>, remaining: map<nat, nat>, s': Stock)
    requires forall k :: SettledSoFar(s, order, location, picked, remaining, s', k)
    requires forall f: Filter | !f.activeOnly :: Quantity(s'.reservations, f) == Quantity(s.reservations, f)
    requires Quantity(s'.reservations, AllHeldFor(order, location)) == 0
    requires forall sku | sku in remaining :: remaining[sku] == 0
    ensures IsSettled(s, order, location, picked, s')
  {
    hide Quantity, Net;
    forall k: Key
      ensures k.location == location ==> Quantity(s'.reservations, HeldFor(order, k)) == 0
    {
      if k.location == location {
        NoneHeldForKey(s'.reservations, order, k);
      }
    }
    forall k: Key
      ensures Net(s'.ledger, k) == Net(s.ledger, k) - if k.location == location then PickedOf(picked, k.sku) else 0
    {
      assert SettledSoFar(s, order, location, picked, remaining, s', k);
    }
    assert s'.balances.Keys == s.balances.Keys by {
      forall k: Key
        ensures k in s'.balances <==> k in s.balances
      {
        assert SettledSoFar(s, order, location, picked, remaining, s', k);
      }
    }
    forall k: Key | k in s.balances
      ensures
        var here := k.location == location;
        && s'.balances[k].onHand == s.balances[k].onHand - (if here then PickedOf(picked, k.sku) else 0)
        && s'.balances[k].reserved ==
           s.balances[k].reserved - (if here then Quantity(s.reservations, HeldFor(order, k)) else 0)
        && s'.balances[k].safetyBuffer == s.balances[k].safetyBuffer
    {
      assert SettledSoFar(s, order, location, picked, remaining, s', k);
    }
  }

  lemma NoneHeldForKey(rs: seq<Reservation>, order: nat, k: Key)
    requires Quantity(rs, AllHeldFor(order, k.location)) == 0
    ensures Quantity(rs, HeldFor(order, k)) == 0
  {
    QuantityZero(rs, AllHeldFor(order, k.location));
    QuantityZero(rs, HeldFor(order, k));
  }

  // ---------- what adjusting asks for ----------

  function DeltaSum(location: nat, lines: seq<Delta>, k: Key): int {
    if lines == [] then 0
    else
      var last := lines[|lines| - 1];
      DeltaSum(location, lines[..|lines| - 1], k) + if k == Key(last.sku, location) then last.quantity else 0
  }

  /** After every line there is a balance and it is not negative. */
  ghost predicate CanAdjust(s: Stock, location: nat, lines: seq<Delta>) {
    forall i | 0 <= i < |lines| :: CanAdjustLine(s, location, lines, i)
  }

  ghost predicate CanAdjustLine(s: Stock, location: nat, lines: seq<Delta>, i: nat)
    requires i < |lines|
  {
    var k := Key(lines[i].sku, location);
    k in s.balances && s.balances[k].onHand + DeltaSum(location, lines[..i + 1], k) >= 0
  }

  predicate Mentions(location: nat, lines: seq<Delta>, k: Key) {
    exists i :: 0 <= i < |lines| && k == Key(lines[i].sku, location)
  }

  /** The ledger goes on with one entry a line. */
  ghost predicate Booked(before: seq<Entry>, location: nat, lines: seq<Delta>, source: Source, after: seq<Entry>) {
    && |after| == |before| + |lines| && before <= after
    && forall i | 0 <= i < |lines| :: Books(after[|before| + i], location, lines[i], source)
  }

  predicate Books(e: Entry, location: nat, line: Delta, source: Source) {
    e.key == Key(line.sku, location) && e.source == source && e.quantity == line.quantity
  }

  lemma BookedNext(before: seq<Entry>, location: nat, lines: seq<Delta>, i: nat, source: Source, after: seq<Entry>,
      e: Entry)
    requires i < |lines| && Booked(before, location, lines[..i], source, after) && Books(e, location, lines[i], source)
    ensures Booked(before, location, lines[..i + 1], source, after + [e])
  {
    var longer, shorter := lines[..i + 1], lines[..i];
    forall j | 0 <= j < i + 1
      ensures Books((after + [e])[|before| + j], location, longer[j], source)
    {
      if j < i {
        assert longer[j] == shorter[j] && (after + [e])[|before| + j] == after[|before| + j];
      }
    }
  }

  /** On-hand amounts move by the lines' quantities and the ledger gains one entry a line. */
  ghost predicate IsMoved(s: Stock, location: nat, lines: seq<Delta>, source: Source, s': Stock) {
    && s'.reservations == s.reservations
    && Booked(s.ledger, location, lines, source, s'.ledger)
    && (forall k: Key :: k in s'.balances <==> k in s.balances || Mentions(location, lines, k))
    && forall k | k in s'.balances ::
         var before := if k in s.balances then s.balances[k] else Balance(0, 0, 2);
         s'.balances[k] == before.(onHand := before.onHand + DeltaSum(location, lines, k))
  }

  lemma DeltaSumNext(location: nat, lines: seq<Delta>, i: nat, k: Key)
    requires i < |lines|
    ensures DeltaSum(location, lines[..i + 1], k) ==
            DeltaSum(location, lines[..i], k) + if k == Key(lines[i].sku, location) then lines[i].quantity else 0
  {
    assert lines[..i + 1][..i] == lines[..i];
  }

  lemma MentionsNext(location: nat, lines: seq<Delta>, i: nat, k: Key)
    requires i < |lines|
    ensures Mentions(location, lines[..i + 1], k) <==>
              Mentions(location, lines[..i], k) || k == Key(lines[i].sku, location)
  {
    var longer, shorter := lines[..i + 1], lines[..i];
    assert forall j | 0 <= j < i :: longer[j] == shorter[j];
    assert longer[i] == lines[i];
    if Mentions(location, shorter, k) {
      var j :| 0 <= j < i && k == Key(shorter[j].sku, location);
      assert k == Key(longer[j].sku, location);
    }
    if Mentions(location, longer, k) {
      var j :| 0 <= j < i + 1 && k == Key(longer[j].sku, location);
      assert j < i ==> shorter[j] == longer[j];
    }
  }

  lemma MovedOneMore(s: Stock, location: nat, lines: seq<Delta>, i: nat, source: Source, s': Stock)
    requires i < |lines| && IsMoved(s, location, lines[..i], source, s')
    ensures IsMoved(s, location, lines[..i + 1], source,
              Moved(s', Key(lines[i].sku, location), lines[i].quantity, source))
  {
    hide DeltaSum, Mentions, Booked;
    var k0, s'' := Key(lines[i].sku, location), Moved(s', Key(lines[i].sku, location), lines[i].quantity, source);
    var longer, shorter := lines[..i + 1], lines[..i];
    BookedNext(s.ledger, location, lines, i, source, s'.ledger, s''.ledger[|s'.ledger|]);
    if !Mentions(location, shorter, k0) {
      NoDeltaNoSum(location, shorter, k0);
    }
    forall k: Key
      ensures Mentions(location, longer, k) <==> Mentions(location, shorter, k) || k == k0
      ensures DeltaSum(location, longer, k) == DeltaSum(location, shorter, k) + if k == k0 then lines[i].quantity else 0
    {
      MentionsNext(location, lines, i, k);
      DeltaSumNext(location, lines, i, k);
    }
  }

  lemma NoDeltaNoSum(location: nat, lines: seq<Delta>, k: Key)
    requires !Mentions(location, lines, k)
    ensures DeltaSum(location, lines, k) == 0
  {
    if lines != [] {
      var last := |lines| - 1;
      MentionsNext(location, lines, last, k);
      assert lines[..last + 1] == lines;
      NoDeltaNoSum(location, lines[..last], k);
    }
  }

  /** Taken together, the lines leave what is reserved of every SKU they mention. */
  ghost predicate LeavesReserved(s: Stock, location: nat, lines: seq<Delta>) {
    forall i | 0 <= i < |lines| ::
      var k := Key(lines[i].sku, location);
      k in s.balances ==> s.balances[k].reserved <= s.balances[k].onHand + DeltaSum(location, lines, k)
  }

  /** A correction checks only that stock stays non-negative. It keeps reservations covered
      exactly when its lines together leave what is reserved; a line that dips below and is
      made up for by another line on the same SKU does no harm. */
  lemma AdjustmentKeepsCoverIff(s: Stock, location: nat, lines: seq<Delta>, s': Stock)
    requires Covered(s) && CanAdjust(s, location, lines) && IsMoved(s, location, lines, Adjustment, s')
    ensures Covered(s') <==> LeavesReserved(s, location, lines)
  {
    hide DeltaSum;
    forall i | 0 <= i < |lines|
      ensures Key(lines[i].sku, location) in s.balances
    {
      assert CanAdjustLine(s, location, lines, i);
    }
    if LeavesReserved(s, location, lines) {
      forall k | k in s'.balances
        ensures s'.balances[k].reserved <= s'.balances[k].onHand
      {
        if !Mentions(location, lines, k) {
          NoDeltaNoSum(location, lines, k);
        }
      }
    }
  }

  /** Five pieces, all of them reserved. */
  lemma FullyReserved() returns (opening: map<Key, nat>, s: Stock)
    ensures Consistent(opening, s) && s.balances == map[Key(0, 0) := Balance(5, 5, 0)]
  {
    var k := Key(0, 0);
    opening := map[k := 5];
    var empty := Stock(map[k := Balance(5, 0, 0)], [], []);
    s := Reserved(empty, None, k, 5);
    ReservedKeeps(opening, empty, None, k, 5);
  }

  /** So a permitted correction can undercut a reservation, in a stock that is still
      consistent, and one that dips on the way need not. */
  lemma AdjustmentCanUndercut() returns (opening: map<Key, nat>, before: Stock, after: Stock, restored: Stock)
    ensures Consistent(opening, before) && Covered(before)
    ensures var down := [Delta(0, -3)];
            && CanAdjust(before, 0, down) && IsMoved(before, 0, down, Adjustment, after)
            && Consistent(opening, after) && !Covered(after)
    ensures var downAndUp := [Delta(0, -3), Delta(0, 3)];
            && CanAdjust(before, 0, downAndUp) && IsMoved(before, 0, downAndUp, Adjustment, restored)
            && Consistent(opening, restored) && Covered(restored)
  {
    hide Consistent, IsMoved;
    var k := Key(0, 0);
    opening, before := FullyReserved();
    var lines := [Delta(0, -3), Delta(0, 3)];
    after := Moved(before, k, -3, Adjustment);
    restored := Moved(after, k, 3, Adjustment);
    MovedKeeps(opening, before, k, -3, Adjustment);
    MovedKeeps(opening, after, k, 3, Adjustment);
    NothingMoved(before, 0, lines, Adjustment);
    MovedOneMore(before, 0, lines, 0, Adjustment, before);
    MovedOneMore(before, 0, lines, 1, Adjustment, after);
    DeltaSumNext(0, lines, 0, k);
    DeltaSumNext(0, lines, 1, k);
    assert lines[..1] == [Delta(0, -3)] && lines[..2] == lines;
    assert [Delta(0, -3)][..1] == [Delta(0, -3)];
    assert after.balances[k].reserved > after.balances[k].onHand;
  }

  // ---------- the transactions ----------

  class Inventory {
    var balances: map<Key, Balance>
    var reservations: seq<Reservation>
    var ledger: seq<Entry>
    ghost const opening: map<Key, nat>

    function Contents(): Stock
      reads this
    {
      Stock(balances, reservations, ledger)
    }

    ghost predicate Valid()
      reads this
    {
      Consistent(opening, Contents())
    }

    constructor (opening: map<Key, nat>, buffers: map<Key, nat>)
      requires opening.Keys == buffers.Keys
      ensures Valid() && this.opening == opening && reservations == [] && ledger == []
      ensures forall k :: k in balances <==> k in opening
      ensures forall k | k in opening :: balances[k] == Balance(opening[k], 0, buffers[k])
    {
      this.opening := opening;
      balances := map k | k in opening :: Balance(opening[k], 0, buffers[k]);
      reservations, ledger := [], [];
    }

    method RollBack(s: Stock)
      modifies this
      ensures Contents() == s
    {
      balances, reservations, ledger := s.balances, s.reservations, s.ledger;
    }

    /** Inside a transaction; the caller rolls back unless the outcome is Done. */
    method ReserveInTransaction(order: Option<nat>, location: nat, lines: seq<Line>) returns (outcome: Outcome)
      requires Valid() && forall i | 0 <= i < |lines| :: lines[i].quantity > 0
      modifies this
      ensures Explains(outcome, old(Contents()), location, lines)
      ensures outcome == Done ==> KeepsBuffers(Contents(), location, lines)
      ensures outcome == Done ==> Valid() && IsReserved(old(Contents()), order, location, lines, Contents())
      ensures outcome == Done && old(Covered(Contents())) ==> Covered(Contents())
    {
      hide Consistent, Covered, IsReserved;
      ghost var before := Contents();
      DistinctIffAsMany(lines);
      if |Skus(lines)| != |lines| {
        return BadRequest;
      }
      NothingReserved(before, order, location, lines);
      for i := 0 to |lines|
        invariant Valid() && IsReserved(before, order, location, lines[..i], Contents())
        invariant forall j | 0 <= j < i :: CanReserveLine(before, location, lines[j])
        invariant Covered(before) ==> Covered(Contents())
      {
        var k := Key(lines[i].sku, location);
        SameBalance(before, order, location, lines, i, Contents());
        if k !in balances {
          assert !CanReserveLine(before, location, lines[i]) && SomeUnknown(before, location, lines);
          return NotFound;
        }
        var sellable := Sellable(balances[k]);
        if sellable < lines[i].quantity {
          assert !CanReserveLine(before, location, lines[i]) && LineUndercuts(before, location, lines[i]);
          return Conflict;
        }
        ReservedKeeps(opening, Contents(), order, k, lines[i].quantity);
        ReservedOneMore(before, order, location, lines, i, Contents());
        if Covered(Contents()) {
          StepsKeepCover(Contents(), 0, 0, order, k, lines[i].quantity);
        }
        balances := balances[k := balances[k].(reserved := balances[k].reserved + lines[i].quantity)];
        reservations := reservations + [Reservation(order, k, lines[i].quantity, Active)];
      }
      assert lines[..|lines|] == lines;
      ReservedKeepsBuffers(before, order, location, lines, Contents());
      return Done;
    }

    /** Done exactly when the SKUs are distinct and every line leaves the safety buffer. */
    method Reserve(order: Option<nat>, location: nat, lines: seq<Line>) returns (outcome: Outcome)
      requires Valid() && forall i | 0 <= i < |lines| :: lines[i].quantity > 0
      modifies this
      ensures Valid()
      ensures Explains(outcome, old(Contents()), location, lines)
      ensures outcome == Done ==> KeepsBuffers(Contents(), location, lines)
      ensures outcome == Done ==> IsReserved(old(Contents()), order, location, lines, Contents())
      ensures outcome != Done ==> Contents() == old(Contents())
      ensures old(Covered(Contents())) ==> Covered(Contents())
    {
      var before := Contents();
      outcome := ReserveInTransaction(order, location, lines);
      if outcome != Done {
        RollBack(before);
      }
    }

    /** The reserved goods leave the stock. */
    method Commit(id: nat, accessLocation: Option<nat>) returns (outcome: Outcome)
      requires Valid()
      modifies this
      ensures Valid()
      ensures outcome == Done <==>
              && id < |old(reservations)|
              && (accessLocation.Some? ==> accessLocation.value == old(reservations)[id].key.location)
              && old(reservations)[id].status == Active
              && old(reservations)[id].key in old(balances)
              && old(balances)[old(reservations)[id].key].onHand >= old(reservations)[id].quantity
      ensures outcome == Done ==> Contents() == CommittedAt(old(Contents()), id)
      ensures outcome != Done ==> Contents() == old(Contents())
      ensures old(Covered(Contents())) ==> Covered(Contents())
    {
      if id >= |reservations| {
        return NotFound;
      }
      var r := reservations[id];
      if accessLocation.Some? && accessLocation.value != r.key.location {
        return Forbidden;
      }
      if r.status != Active {
        return Conflict;
      }
      ActiveIsCovered(opening, Contents(), id);
      var b := balances[r.key];
      if b.reserved < r.quantity || b.onHand < r.quantity {
        return Conflict;
      }
      SettledKeeps(opening, Contents(), id, r.quantity);
      CommitIsFullSettle(Contents(), id);
      if Covered(Contents()) {
        StepsKeepCover(Contents(), id, r.quantity, None, r.key, 0);
      }
      var newOnHand := b.onHand - r.quantity;
      balances := balances[r.key := b.(onHand := newOnHand, reserved := b.reserved - r.quantity)];
      reservations := reservations[id := r.(status := Committed)];
      ledger := ledger + [Entry(r.key, OrderCommit, 0 - r.quantity, newOnHand)];
      return Done;
    }

    /** Releasing twice is allowed and changes nothing the second time. */
    method Release(id: nat, accessLocation: Option<nat>) returns (outcome: Outcome)
      requires Valid()
      modifies this
      ensures Valid()
      ensures outcome == Done <==>
              && id < |old(reservations)|
              && (accessLocation.Some? ==> accessLocation.value == old(reservations)[id].key.location)
              && old(reservations)[id].status != Committed
      ensures outcome == Done && old(reservations)[id].status == Active ==>
                old(reservations)[id].key in old(balances) && Contents() == ReleasedAt(old(Contents()), id)
      ensures outcome != Done || old(reservations)[id].status == Released ==> Contents() == old(Contents())
      ensures old(Covered(Contents())) ==> Covered(Contents())
    {
      if id >= |reservations| {
        return NotFound;
      }
      var r := reservations[id];
      if accessLocation.Some? && accessLocation.value != r.key.location {
        return Forbidden;
      }
      if r.status == Committed {
        return Conflict;
      }
      if r.status == Released {
        return Done;
      }
      ActiveIsCovered(opening, Contents(), id);
      var b := balances[r.key];
      if b.reserved < r.quantity {
        return Conflict;
      }
      ReleasedKeeps(opening, Contents(), id);
      if Covered(Contents()) {
        StepsKeepCover(Contents(), id, 0, None, r.key, 0);
      }
      balances := balances[r.key := b.(reserved := b.reserved - r.quantity)];
      reservations := reservations[id := r.(status := Released)];
      return Done;
    }

    /** The order's active reservations at the location, or anywhere. */
    method ActiveOf(order: nat, location: Option<nat>) returns (ids: seq<nat>)
      ensures Distinct(ids)
      ensures forall id: nat :: id in ids <==> id < |reservations| && IsActiveOf(reservations[id], order, location)
    {
      ids := [];
      for id := 0 to |reservations|
        invariant Distinct(ids)
        invariant forall j: nat :: j in ids <==> j < id && IsActiveOf(reservations[j], order, location)
      {
        if IsActiveOf(reservations[id], order, location) {
          ids := ids + [id];
        }
      }
    }

    method SettleOne(order: nat, location: nat, id: nat, commit: nat)
      requires Valid() && id < |reservations| && IsActiveOf(reservations[id], order, Some(location))
      requires reservations[id].key in balances
      requires commit <= reservations[id].quantity && commit <= balances[reservations[id].key].onHand
      modifies this
      ensures Valid() && Contents() == SettledAt(old(Contents()), id, commit)
      ensures old(Covered(Contents())) ==> Covered(Contents())
    {
      hide Consistent, Covered;
      SettledKeeps(opening, Contents(), id, commit);
      if Covered(Contents()) {
        StepsKeepCover(Contents(), id, commit, None, reservations[id].key, 0);
      }
      var r := reservations[id];
      var b := balances[r.key];
      var release := r.quantity - commit;
      var newOnHand := b.onHand - commit;
      balances := balances[r.key := b.(onHand := newOnHand, reserved := b.reserved - r.quantity)];
      if commit > 0 {
        reservations := reservations[id := r.(quantity := commit, status := Committed)];
        ledger := ledger + [Entry(r.key, OrderCommit, 0 - commit, newOnHand)];
      } else {
        reservations := reservations[id := r.(status := Released)];
      }
      if release > 0 {
        if commit > 0 {
          reservations := reservations + [Reservation(r.order, r.key, release, Released)];
        }
        ledger := ledger + [Entry(r.key, OrderRelease, 0, newOnHand)];
      }
      assert old(ledger) + [] == old(ledger) && forall e: Entry :: old(ledger) + [e] + [] == old(ledger) + [e];
      assert Contents() == SettledAt(old(Contents()), id, commit);
    }

    method SettleInTransaction(order: nat, location: nat, picked: map<nat, nat>)
      returns (outcome: Outcome, committed: nat, released: nat)
      requires Valid()
      modifies this
      ensures var none := Quantity(old(reservations), AllHeldFor(order, location)) == 0;
              && (none ==> outcome == Done && committed == released == 0 && Contents() == old(Contents()))
              && (!none ==> (outcome == Done <==> CanSettle(old(Contents()), order, location, picked)))
              && (!none && outcome == Done ==>
                    && IsSettled(old(Contents()), order, location, picked, Contents())
                    && committed == MapSums.Sum(picked))
      ensures outcome == Done ==> Valid()
      ensures outcome == Done ==>
                committed + released == Quantity(old(reservations), AllHeldFor(order, location))
      ensures outcome == Done && old(Covered(Contents())) ==> Covered(Contents())
    {
      hide Consistent, Covered, Quantity, Net, SettledSoFar, IsSettled, SettleState, CanSettle;
      ghost var before := Contents();
      var ids := ActiveOf(order, Some(location));
      NoIdsNoneHeld(opening, Contents(), order, location, ids);
      if ids == [] {
        return Done, 0, 0;
      }
      var remaining: map<nat, nat> := picked;
      committed, released := 0, 0;
      SettleStateStarts(before, order, location, picked, ids);
      assert ids[0..] == ids;
      for i := 0 to |ids|
        invariant Valid() && (Covered(before) ==> Covered(Contents()))
        invariant SettleState(before, order, location, picked, remaining, committed, released, Contents(), ids[i..])
      {
        var id := ids[i];
        assert ids[i..][0] == id && ids[i..][1..] == ids[i + 1..];
        NextRow(opening, before, order, location, picked, remaining, committed, released, Contents(), ids[i..]);
        var r := reservations[id];
        var b := balances[r.key];
        var requested := PickedOf(remaining, r.key.sku);
        var commit := Min(r.quantity, requested);
        if b.reserved < r.quantity || b.onHand < commit {
          NotEnoughLeft(before, order, location, picked, remaining, Contents(), r.key, commit);
          return Conflict, committed, released;
        }
        SettleStateNext(before, order, location, picked, remaining, committed, released, Contents(), ids[i..], commit);
        committed, released := committed + commit, released + (r.quantity - commit);
        remaining := remaining[r.key.sku := requested - commit];
        SettleOne(order, location, id, commit);
      }
      assert ids[|ids|..] == [];
      var over := PickedTooMany(remaining);
      if over.Some? {
        NotEnoughReserved(opening, before, order, location, picked, remaining, committed, released,
                          Contents(), over.value);
        return Conflict, committed, released;
      }
      SettleStateEnds(opening, before, order, location, picked, remaining, committed, released, Contents());
      return Done, committed, released;
    }

    /** Settling inside a transaction of the caller that fails as a whole. */
    method Settle(order: nat, location: nat, picked: map<nat, nat>)
        returns (outcome: Outcome, committed: nat, released: nat)
      requires Valid()
      modifies this
      ensures Valid() && (outcome != Done ==> Contents() == old(Contents()))
      ensures var none := Quantity(old(reservations), AllHeldFor(order, location)) == 0;
              && (outcome == Done <==> none || CanSettle(old(Contents()), order, location, picked))
              && (outcome == Done && !none ==>
                    && IsSettled(old(Contents()), order, location, picked, Contents())
                    && committed == MapSums.Sum(picked))
      ensures outcome == Done ==> committed + released == Quantity(old(reservations), AllHeldFor(order, location))
      ensures old(Covered(Contents())) ==> Covered(Contents())
    {
      hide Consistent, Covered, Quantity, IsSettled, CanSettle;
      var before := Contents();
      outcome, committed, released := SettleInTransaction(order, location, picked);
      if outcome != Done {
        RollBack(before);
      }
    }

    method MoveOne(k: Key, quantity: int, source: Source)
      modifies this
      ensures Contents() == Moved(old(Contents()), k, quantity, source)
    {
      var before := if k in balances then balances[k] else Balance(0, 0, DEFAULT_BUFFER);
      var newOnHand := before.onHand + quantity;
      balances := balances[k := before.(onHand := newOnHand)];
      ledger := ledger + [Entry(k, source, quantity, newOnHand)];
    }

    /** Goods come in; a SKU new to the location gets a balance. */
    method Receive(location: nat, lines: seq<Delta>)
      requires Valid() && forall i | 0 <= i < |lines| :: lines[i].quantity > 0
      modifies this
      ensures Valid() && IsMoved(old(Contents()), location, lines, Receipt, Contents())
      ensures old(Covered(Contents())) ==> Covered(Contents())
    {
      hide Consistent, Covered, IsMoved;
      ghost var before := Contents();
      NothingMoved(before, location, lines, Receipt);
      for i := 0 to |lines|
        invariant Valid() && IsMoved(before, location, lines[..i], Receipt, Contents())
        invariant Covered(before) ==> Covered(Contents())
      {
        var k := Key(lines[i].sku, location);
        NotNegative(opening, Contents(), k);
        MovedKeeps(opening, Contents(), k, lines[i].quantity, Receipt);
        MovedOneMore(before, location, lines, i, Receipt, Contents());
        if Covered(Contents()) {
          StepsKeepCover(Contents(), 0, 0, None, k, lines[i].quantity);
        }
        MoveOne(k, lines[i].quantity, Receipt);
      }
      assert lines[..|lines|] == lines;
    }

    /** Corrections, each of which must leave a non-negative amount. */
    method Adjust(location: nat, lines: seq<Delta>) returns (outcome: Outcome)
      requires Valid()
      modifies this
      ensures Valid()
      ensures outcome == Done <==> CanAdjust(old(Contents()), location, lines)
      ensures outcome == Done ==> IsMoved(old(Contents()), location, lines, Adjustment, Contents())
      ensures outcome != Done ==> Contents() == old(Contents())
      ensures outcome == Done && old(Covered(Contents())) ==>
                (Covered(Contents()) <==> LeavesReserved(old(Contents()), location, lines))
    {
      hide Consistent, IsMoved, CanAdjustLine, Covered, LeavesReserved;
      var before := Contents();
      NothingMoved(before, location, lines, Adjustment);
      for i := 0 to |lines|
        invariant Valid() && IsMoved(before, location, lines[..i], Adjustment, Contents())
        invariant forall j | 0 <= j < i :: CanAdjustLine(before, location, lines, j)
        invariant balances.Keys == before.balances.Keys
      {
        var k := Key(lines[i].sku, location);
        NextAdjustment(before, location, lines, i, Contents());
        if k !in balances {
          RollBack(before);
          return NotFound;
        }
        var newOnHand := balances[k].onHand + lines[i].quantity;
        if newOnHand < 0 {
          RollBack(before);
          return BadRequest;
        }
        MovedKeeps(opening, Contents(), k, lines[i].quantity, Adjustment);
        MovedOneMore(before, location, lines, i, Adjustment, Contents());
        MoveOne(k, lines[i].quantity, Adjustment);
      }
      assert lines[..|lines|] == lines;
      if Covered(before) {
        AdjustmentKeepsCoverIff(before, location, lines, Contents());
      }
      return Done;
    }

    /** Gives an order's reservations another source: releases them all and reserves the
        lines at the destination, or does nothing when all are there already. */
    method MoveReservations(order: nat, destination: nat, lines: seq<Line>) returns (outcome: Outcome, moved: bool)
      requires Valid() && forall i | 0 <= i < |lines| :: lines[i].quantity > 0
      modifies this
      ensures Valid()
      ensures var there := AlreadyThere(old(reservations), order, destination);
              && (there ==> outcome == Done && !moved && Contents() == old(Contents()))
              && (outcome == Done && !there ==>
                    && moved && KeepsBuffers(Contents(), destination, lines)
                    && IsReserved(Freed(old(Contents()), order), Some(order), destination, lines, Contents()))
              && (!there ==> Explains(outcome, Freed(old(Contents()), order), destination, lines))
      ensures outcome != Done ==> Contents() == old(Contents())
      ensures old(Covered(Contents())) ==> Covered(Contents())
    {
      hide Consistent, Covered, IsReserved, Explains, KeepsBuffers, FreedSoFar;
      var before := Contents();
      var ids := ActiveOf(order, None);
      assert forall i | 0 <= i < |ids| :: ids[i] in ids;
      var there := ids != [] && forall i | 0 <= i < |ids| :: reservations[ids[i]].key.location == destination;
      ThereIff(reservations, order, destination, ids);
      if there {
        return Done, false;
      }
      FreeingStarts(before, order, ids);
      assert ids[0..] == ids;
      for i := 0 to |ids|
        invariant Valid() && (Covered(before) ==> Covered(Contents()))
        invariant FreedSoFar(before, order, Contents(), ids[i..])
      {
        assert ids[i..][0] == ids[i] && ids[i..][1..] == ids[i + 1..];
        FreeingNext(opening, before, order, Contents(), ids[i..]);
        var released := Release(ids[i], None);
      }
      assert ids[|ids|..] == [];
      FreeingEnds(before, order, Contents());
      outcome := ReserveInTransaction(Some(order), destination, lines);
      moved := true;
      if outcome != Done {
        RollBack(before);
      }
    }
  }

  lemma ReservedKeepsBuffers(s: Stock, order: Option<nat>, location: nat, lines: seq<Line>, s': Stock)
    requires CanReserve(s, location, lines) && IsReserved(s, order, location, lines, s')
    ensures KeepsBuffers(s', location, lines)
  {
    forall i | 0 <= i < |lines|
      ensures LineSum(location, lines, Key(lines[i].sku, location)) == lines[i].quantity
    {
      LineSumOfOne(location, lines, i);
      assert CanReserveLine(s, location, lines[i]);
    }
    assert forall i | 0 <= i < |lines| :: CanReserveLine(s, location, lines[i]);
  }

  /** With distinct SKUs a key's lines add up to its one line. */
  lemma {:induction false} LineSumOfOne(location: nat, lines: seq<Line>, i: nat)
    requires DistinctSkus(lines) && i < |lines|
    ensures LineSum(location, lines, Key(lines[i].sku, location)) == lines[i].quantity
  {
    var last := |lines| - 1;
    if i < last {
      LineSumOfOne(location, lines[..last], i);
    } else {
      NoLineNoSum(location, lines[..last], Key(lines[i].sku, location));
    }
  }

  lemma NothingReserved(s: Stock, order: Option<nat>, location: nat, lines: seq<Line>)
    ensures IsReserved(s, order, location, lines[..0], s)
  {
    assert RowsFor(order, location, lines[..0]) == [];
    assert s.reservations + [] == s.reservations;
  }

  /** With distinct SKUs, the lines before have not touched the balance of the next one. */
  lemma SameBalance(s: Stock, order: Option<nat>, location: nat, lines: seq<Line>, i: nat, s': Stock)
    requires DistinctSkus(lines) && i < |lines| && IsReserved(s, order, location, lines[..i], s')
    ensures var k := Key(lines[i].sku, location);
            && (k in s.balances <==> k in s'.balances)
            && (k in s.balances ==> s'.balances[k] == s.balances[k])
  {
    NoLineNoSum(location, lines[..i], Key(lines[i].sku, location));
  }

  predicate IsActiveOf(r: Reservation, order: nat, location: Option<nat>) {
    r.status == Active && r.order == Some(order) && (location.None? || location.value == r.key.location)
  }

  lemma NoIdsNoneHeld(opening: map<Key, nat>, s: Stock, order: nat, location: nat, ids: seq<nat>)
    requires Consistent(opening, s)
    requires forall id: nat | id < |s.reservations| ::
               IsActiveOf(s.reservations[id], order, Some(location)) <==> id in ids
    requires forall id | id in ids :: id < |s.reservations|
    ensures ids == [] <==> Quantity(s.reservations, AllHeldFor(order, location)) == 0
  {
    QuantityZero(s.reservations, AllHeldFor(order, location));
    if ids != [] {
      assert ids[0] in ids;
    }
  }

  method PickedTooMany(remaining: map<nat, nat>) returns (over: Option<nat>)
    ensures over.Some? ==> over.value in remaining && remaining[over.value] > 0
    ensures over.None? ==> forall sku | sku in remaining :: remaining[sku] == 0
  {
    var pending := remaining.Keys;
    while pending != {}
      invariant pending <= remaining.Keys
      invariant forall sku | sku in remaining && sku !in pending :: remaining[sku] == 0
    {
      var sku :| sku in pending;
      if remaining[sku] > 0 {
        return Some(sku);
      }
      pending := pending - {sku};
    }
    return None;
  }

  lemma {:induction false} SumZero(m: map<nat, nat>)
    requires forall k | k in m :: m[k] == 0
    ensures MapSums.Sum(m) == 0
    decreases |m|
  {
    if m == map[] {
    } else {
      var k :| k in m;
      MapSums.SumRemove(m, k);
      SumZero(m - {k});
    }
  }

  /** Settling so far: per key, in all, and which rows are still to come. */
  ghost predicate SettleState(s: Stock, order: nat, location: nat, picked: map<nat, nat>, remaining: map<nat, nat>,
                              committed: nat, released: nat, s': Stock, ids: seq<nat>)
  {
    && (forall k :: SettledSoFar(s, order, location, picked, remaining, s', k))
    && (forall f: Filter | !f.activeOnly :: Quantity(s'.reservations, f) == Quantity(s.reservations, f))
    && Distinct(ids) && (forall id | id in ids :: id < |s'.reservations|)
    && (forall id: nat | id < |s'.reservations| ::
          IsActiveOf(s'.reservations[id], order, Some(location)) <==> id in ids)
    && MapSums.Sum(remaining) + committed == MapSums.Sum(picked)
    && Quantity(s'.reservations, AllHeldFor(order, location)) + committed + released
       == Quantity(s.reservations, AllHeldFor(order, location))
  }

  lemma SettleStateStarts(s: Stock, order: nat, location: nat, picked: map<nat, nat>, ids: seq<nat>)
    requires Distinct(ids)
    requires forall id: nat ::
               id in ids <==> id < |s.reservations| && IsActiveOf(s.reservations[id], order, Some(location))
    ensures SettleState(s, order, location, picked, picked, 0, 0, s, ids)
  {
    hide Quantity, Net, SettledSoFar;
    forall k
      ensures SettledSoFar(s, order, location, picked, picked, s, k)
    {
      SettleStarts(s, order, location, picked, k);
    }
  }

  lemma NextRow(opening: map<Key, nat>, s: Stock, order: nat, location: nat, picked: map<nat, nat>,
      remaining: map<nat, nat>,
                committed: nat, released: nat, s': Stock, ids: seq<nat>)
    requires SettleState(s, order, location, picked, remaining, committed, released, s', ids) && ids != []
    requires Consistent(opening, s')
    ensures ids[0] < |s'.reservations| && IsActiveOf(s'.reservations[ids[0]], order, Some(location))
    ensures var r := s'.reservations[ids[0]];
            && r.key in s'.balances && s'.balances[r.key].reserved >= r.quantity && s'.balances[r.key].onHand >= 0
            && SettledSoFar(s, order, location, picked, remaining, s', r.key)
  {
    hide Quantity, Net, SettledSoFar;
    assert ids[0] in ids;
    ActiveIsCovered(opening, s', ids[0]);
    assert BalanceOk(opening, s', s'.reservations[ids[0]].key);
  }

  lemma SettleStateNext(s: Stock, order: nat, location: nat, picked: map<nat, nat>, remaining: map<nat, nat>,
                        committed: nat, released: nat, s': Stock, ids: seq<nat>, commit: nat)
    requires SettleState(s, order, location, picked, remaining, committed, released, s', ids) && ids != []
    requires ids[0] < |s'.reservations| && IsActiveOf(s'.reservations[ids[0]], order, Some(location))
    requires s'.reservations[ids[0]].key in s'.balances
    requires commit == Min(s'.reservations[ids[0]].quantity, PickedOf(remaining, s'.reservations[ids[0]].key.sku))
    ensures var r := s'.reservations[ids[0]];
            SettleState(s, order, location, picked, remaining[r.key.sku := PickedOf(remaining, r.key.sku) - commit],
                        committed + commit, released + (r.quantity - commit), SettledAt(s', ids[0], commit), ids[1..])
  {
    hide Quantity, Net, SettledSoFar, SettledAt;
    var id, r := ids[0], s'.reservations[ids[0]];
    var left, next := remaining[r.key.sku := PickedOf(remaining, r.key.sku) - commit], SettledAt(s', id, commit);
    forall k
      ensures SettledSoFar(s, order, location, picked, left, next, k)
    {
      SettleGoesOn(s, order, location, picked, remaining, s', id, commit, k);
    }
    forall f: Filter
      ensures Quantity(next.reservations, f) == Quantity(s'.reservations, f) - (if f.activeOnly then Share(f, r) else 0)
    {
      SettledChanges(s', id, commit, f, r.key);
    }
    SettledRows(s', id, commit, order, location);
    MapSums.SumInsert(remaining, r.key.sku, PickedOf(remaining, r.key.sku) - commit);
    assert ids == [id] + ids[1..];
    assert forall j | 0 <= j < |ids| - 1 :: ids[1..][j] == ids[j + 1];
    assert Distinct(ids[1..]) && id !in ids[1..];
    forall j: nat | j < |next.reservations|
      ensures IsActiveOf(next.reservations[j], order, Some(location)) <==> j in ids[1..]
    {
      assert j in ids <==> j == id || j in ids[1..];
    }
    assert Share(AllHeldFor(order, location), r) == r.quantity;
    forall j | j in ids[1..]
      ensures j < |next.reservations|
    {
      assert j in ids;
    }
  }

  lemma SettleStateEnds(opening: map<Key, nat>, s: Stock, order: nat, location: nat, picked: map<nat, nat>,
      remaining: map<nat, nat>,
                        committed: nat, released: nat, s': Stock)
    requires SettleState(s, order, location, picked, remaining, committed, released, s', [])
    requires Consistent(opening, s) && Consistent(opening, s')
    requires forall sku | sku in remaining :: remaining[sku] == 0
    ensures IsSettled(s, order, location, picked, s') && CanSettle(s, order, location, picked)
    ensures committed == MapSums.Sum(picked)
    ensures committed + released == Quantity(s.reservations, AllHeldFor(order, location))
  {
    hide Quantity, Net, SettledSoFar, Consistent, IsSettled, CanSettle;
    NoIdsNoneHeld(opening, s', order, location, []);
    SumZero(remaining);
    SettleEnds(s, order, location, picked, remaining, s');
    SettledMeansCould(opening, s, order, location, picked, remaining, s');
  }

  lemma NotEnoughLeft(s: Stock, order: nat, location: nat, picked: map<nat, nat>, remaining: map<nat, nat>, s': Stock,
      k: Key, commit: nat)
    requires SettledSoFar(s, order, location, picked, remaining, s', k)
    requires k.location == location && k in s'.balances
               && 0 <= s'.balances[k].onHand < commit <= PickedOf(remaining, k.sku)
    ensures !CanSettle(s, order, location, picked)
  {
    hide Quantity, Net;
    assert k == Key(k.sku, location);
  }

  lemma NotEnoughReserved(opening: map<Key, nat>, s: Stock, order: nat, location: nat, picked: map<nat, nat>,
      remaining: map<nat, nat>,
                          committed: nat, released: nat, s': Stock, sku: nat)
    requires SettleState(s, order, location, picked, remaining, committed, released, s', [])
    requires Consistent(opening, s') && sku in remaining && remaining[sku] > 0
    ensures !CanSettle(s, order, location, picked)
  {
    hide Quantity, Net;
    var k := Key(sku, location);
    NoIdsNoneHeld(opening, s', order, location, []);
    NoneHeldForKey(s'.reservations, order, k);
    assert SettledSoFar(s, order, location, picked, remaining, s', k);
  }

  lemma SettledMeansCould(opening: map<Key, nat>, s: Stock, order: nat, location: nat, picked: map<nat, nat>,
      remaining: map<nat, nat>, s': Stock)
    requires Consistent(opening, s) && Consistent(opening, s')
    requires forall k :: SettledSoFar(s, order, location, picked, remaining, s', k)
    requires forall sku | sku in remaining :: remaining[sku] == 0
    ensures CanSettle(s, order, location, picked)
  {
    hide Quantity, Net;
    forall sku | sku in picked && picked[sku] > 0
      ensures picked[sku] <= Quantity(s.reservations, HeldFor(order, Key(sku, location)))
      ensures Key(sku, location) in s.balances && picked[sku] <= s.balances[Key(sku, location)].onHand
    {
      var k := Key(sku, location);
      assert SettledSoFar(s, order, location, picked, remaining, s', k);
      HeldForNeedsBalance(opening, s, order, k);
      assert BalanceOk(opening, s', k);
    }
  }

  lemma HeldForNeedsBalance(opening: map<Key, nat>, s: Stock, order: nat, k: Key)
    requires Consistent(opening, s) && Quantity(s.reservations, HeldFor(order, k)) > 0
    ensures k in s.balances
  {
    assert BalanceOk(opening, s, k);
    QuantityZero(s.reservations, Held(k));
    QuantityZero(s.reservations, HeldFor(order, k));
  }

  lemma SettledRows(s: Stock, id: nat, commit: nat, order: nat, location: nat)
    requires id < |s.reservations| && s.reservations[id].key in s.balances && commit <= s.reservations[id].quantity
    ensures var rows := SettledAt(s, id, commit).reservations;
            && |rows| >= |s.reservations|
            && forall j: nat | j < |rows| ::
                 IsActiveOf(rows[j], order, Some(location)) <==>
                 j < |s.reservations| && j != id && IsActiveOf(s.reservations[j], order, Some(location))
  {
  }

  // ---------- receiving and adjusting ----------

  lemma NothingMoved(s: Stock, location: nat, lines: seq<Delta>, source: Source)
    ensures IsMoved(s, location, lines[..0], source, s)
  {
  }

  lemma NotNegative(opening: map<Key, nat>, s: Stock, k: Key)
    requires Consistent(opening, s)
    ensures k in s.balances ==> s.balances[k].onHand >= 0
  {
    assert BalanceOk(opening, s, k);
  }

  lemma NextAdjustment(s: Stock, location: nat, lines: seq<Delta>, i: nat, s': Stock)
    requires i < |lines| && IsMoved(s, location, lines[..i], Adjustment, s') && s'.balances.Keys == s.balances.Keys
    ensures var k := Key(lines[i].sku, location);
            CanAdjustLine(s, location, lines, i) <==>
            k in s'.balances && s'.balances[k].onHand + lines[i].quantity >= 0
  {
    assert lines[..i + 1][..i] == lines[..i];
  }

  // ---------- moving reservations ----------

  predicate AlreadyThere(rs: seq<Reservation>, order: nat, destination: nat) {
    && (exists id :: 0 <= id < |rs| && IsActiveOf(rs[id], order, None))
    && forall id | 0 <= id < |rs| && IsActiveOf(rs[id], order, None) :: rs[id].key.location == destination
  }

  function FreedRow(r: Reservation, order: nat): Reservation {
    if IsActiveOf(r, order, None) then r.(status := Released) else r
  }

  function FreedRows(rs: seq<Reservation>, order: nat): (freed: seq<Reservation>)
    ensures |freed| == |rs| && forall id | 0 <= id < |rs| :: freed[id] == FreedRow(rs[id], order)
  {
    seq(|rs|, id requires 0 <= id < |rs| => FreedRow(rs[id], order))
  }

  /** The stock with all active reservations of the order released. */
  function Freed(s: Stock, order: nat): Stock {
    s.(balances := map k | k in s.balances ::
                     s.balances[k].(reserved := s.balances[k].reserved - Quantity(s.reservations, HeldFor(order, k))),
       reservations := FreedRows(s.reservations, order))
  }

  ghost predicate FreedSoFar(s: Stock, order: nat, s': Stock, ids: seq<nat>) {
    && s'.ledger == s.ledger && s'.balances.Keys == s.balances.Keys && |s'.reservations| == |s.reservations|
    && (forall k | k in s.balances :: s'.balances[k] == s.balances[k].(reserved :=
          s.balances[k].reserved - Quantity(s.reservations, HeldFor(order, k))
                                 + Quantity(s'.reservations, HeldFor(order, k))))
    && (forall id | id in ids :: id < |s.reservations|) && Distinct(ids)
    && (forall id: nat | id < |s.reservations| ::
          if id in ids then s'.reservations[id] == s.reservations[id] && IsActiveOf(s.reservations[id], order, None)
          else s'.reservations[id] == FreedRow(s.reservations[id], order))
  }

  lemma ThereIff(rs: seq<Reservation>, order: nat, destination: nat, ids: seq<nat>)
    requires forall id: nat :: id in ids <==> id < |rs| && IsActiveOf(rs[id], order, None)
    ensures AlreadyThere(rs, order, destination) <==>
            ids != [] && forall i | 0 <= i < |ids| :: ids[i] < |rs| && rs[ids[i]].key.location == destination
  {
    if ids != [] {
      assert ids[0] in ids;
    }
    if forall i | 0 <= i < |ids| :: ids[i] < |rs| && rs[ids[i]].key.location == destination {
      forall id | 0 <= id < |rs| && IsActiveOf(rs[id], order, None)
        ensures rs[id].key.location == destination
      {
        assert id in ids;
        var i :| 0 <= i < |ids| && ids[i] == id;
      }
    }
    forall i | 0 <= i < |ids|
      ensures ids[i] < |rs| && IsActiveOf(rs[ids[i]], order, None)
    {
      assert ids[i] in ids;
    }
  }

  lemma FreeingStarts(s: Stock, order: nat, ids: seq<nat>)
    requires Distinct(ids)
    requires forall id: nat :: id in ids <==> id < |s.reservations| && IsActiveOf(s.reservations[id], order, None)
    ensures FreedSoFar(s, order, s, ids)
  {
  }

  lemma FreeingNext(opening: map<Key, nat>, s: Stock, order: nat, s': Stock, ids: seq<nat>)
    requires FreedSoFar(s, order, s', ids) && ids != [] && Consistent(opening, s')
    ensures ids[0] < |s'.reservations| && s'.reservations[ids[0]].status == Active
    ensures s'.reservations[ids[0]].key in s'.balances
    ensures FreedSoFar(s, order, ReleasedAt(s', ids[0]), ids[1..])
  {
    hide Quantity, Net;
    var id := ids[0];
    assert id in ids;
    var r := s'.reservations[id];
    ActiveIsCovered(opening, s', id);
    var next := ReleasedAt(s', id);
    forall k | k in s.balances
      ensures next.balances[k] == s.balances[k].(reserved :=
          s.balances[k].reserved - Quantity(s.reservations, HeldFor(order, k))
                                 + Quantity(next.reservations, HeldFor(order, k)))
    {
      QuantityUpdate(s'.reservations, id, r.(status := Released), HeldFor(order, k));
    }
    assert ids == [id] + ids[1..];
    assert forall j | 0 <= j < |ids| - 1 :: ids[1..][j] == ids[j + 1];
    assert id !in ids[1..] && Distinct(ids[1..]);
    forall j | j in ids[1..]
      ensures j in ids
    {
    }
  }

  lemma FreeingEnds(s: Stock, order: nat, s': Stock)
    requires FreedSoFar(s, order, s', [])
    ensures s' == Freed(s, order)
  {
    hide Quantity, Net;
    var freed := Freed(s, order);
    assert s'.reservations == freed.reservations;
    forall k | k in s.balances
      ensures Quantity(s'.reservations, HeldFor(order, k)) == 0
    {
      QuantityZero(s'.reservations, HeldFor(order, k));
    }
    assert s'.balances == freed.balances;
  }

  /** After a move the order holds exactly the lines, at the destination and nowhere else,
      while what other orders hold is untouched. */
  lemma MovedHoldsTheLines(s: Stock, order: nat, destination: nat, lines: seq<Line>, s': Stock, k: Key, other: nat)
    requires IsReserved(Freed(s, order), Some(order), destination, lines, s')
    ensures Quantity(s'.reservations, HeldFor(order, k)) == LineSum(destination, lines, k)
    ensures other != order ==>
              Quantity(s'.reservations, HeldFor(other, k)) == Quantity(s.reservations, HeldFor(other, k))
  {
    var freed := Freed(s, order).reservations;
    QuantityZero(freed, HeldFor(order, k));
    RowsHold(freed, Some(order), destination, lines, HeldFor(order, k), k);
    if other != order {
      FreedKeepsOthers(s.reservations, order, other, k);
      RowsHold(freed, Some(order), destination, lines, HeldFor(other, k), k);
    }
  }

  lemma {:induction false} RowsHold(rs: seq<Reservation>, order: Option<nat>, location: nat, lines: seq<Line>,
      f: Filter, k: Key)
    requires order.Some? && f.activeOnly && f.location == k.location && f.sku == Some(k.sku) && f.order.Some?
    ensures Quantity(rs + RowsFor(order, location, lines), f) ==
            Quantity(rs, f) + if f.order == order then LineSum(location, lines, k) else 0
    decreases |lines|
  {
    var rows := RowsFor(order, location, lines);
    if lines == [] {
      assert rs + rows == rs;
    } else {
      var last := |lines| - 1;
      RowsHold(rs, order, location, lines[..last], f, k);
      assert rs + rows == rs + RowsFor(order, location, lines[..last]) + [rows[last]];
      QuantityAppend(rs + RowsFor(order, location, lines[..last]), rows[last], f);
    }
  }

  lemma {:induction false} FreedKeepsOthers(rs: seq<Reservation>, order: nat, other: nat, k: Key)
    requires other != order
    ensures Quantity(FreedRows(rs, order), HeldFor(other, k)) == Quantity(rs, HeldFor(other, k))
  {
    if rs == [] {
    } else {
      var last := |rs| - 1;
      FreedKeepsOthers(rs[..last], order, other, k);
      assert FreedRows(rs, order)[..last] == FreedRows(rs[..last], order);
    }
  }
}
