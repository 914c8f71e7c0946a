/** Stock balances beside two simpler accounts of the same history: the reservations and
    the ledger of movements. */
module StockAccounts {
  import opened Prelude

  /** One SKU at one location. */
  datatype Key = Key(sku: nat, location: nat)

  datatype Balance = Balance(onHand: int, reserved: int, safetyBuffer: nat)

  datatype ReservationStatus = Active | Committed | Released

  datatype Reservation = Reservation(order: Option<nat>, key: Key, quantity: nat, status: ReservationStatus)

  datatype Source = Receipt | Adjustment | OrderCommit | OrderRelease

  datatype Entry = Entry(key: Key, source: Source, quantity: int, balanceAfter: int)

  /** A reservation is identified by its position. */
  datatype Stock = Stock(balances: map<Key, Balance>, reservations: seq<Reservation>, ledger: seq<Entry>)

  const DEFAULT_BUFFER := 2

  // ---------- the two simpler accounts ----------

  /** Which reservations to add up at a location: of one SKU or of all, of one order or of
      all, the active ones or all. */
  datatype Filter = Filter(location: nat, sku: Option<nat>, order: Option<nat>, activeOnly: bool)

  predicate Matches(f: Filter, r: Reservation) {
    r.key.location == f.location && (f.sku.None? || f.sku.value == r.key.sku)
    && (f.order.None? || r.order == f.order) && (f.activeOnly ==> r.status == Active)
  }

  function Share(f: Filter, r: Reservation): nat {
    if Matches(f, r) then r.quantity else 0
  }

  function Quantity(rs: seq<Reservation>, f: Filter): nat {
    if rs == [] then 0 else Quantity(rs[..|rs| - 1], f) + Share(f, rs[|rs| - 1])
  }

  function Held(k: Key): Filter {
    Filter(k.location, Some(k.sku), None, true)
  }

  function HeldFor(order: nat, k: Key): Filter {
    Filter(k.location, Some(k.sku), Some(order), true)
  }

  function AllHeldFor(order: nat, location: nat): Filter {
    Filter(location, None, Some(order), true)
  }

  /** Net movement of a key. */
  function Net(ledger: seq<Entry>, k: Key): int {
    if ledger == [] then 0
    else Net(ledger[..|ledger| - 1], k) + if ledger[|ledger| - 1].key == k then ledger[|ledger| - 1].quantity else 0
  }

  function OpeningOf(opening: map<Key, nat>, k: Key): nat {
    if k in opening then opening[k] else 0
  }

  // ---------- what all transactions keep ----------

  ghost predicate BalanceOk(opening: map<Key, nat>, s: Stock, k: Key) {
    if k in s.balances then
      && s.balances[k].onHand >= 0
      && s.balances[k].onHand == OpeningOf(opening, k) + Net(s.ledger, k)
      && s.balances[k].reserved == Quantity(s.reservations, Held(k))
    else
      OpeningOf(opening, k) == 0 && Net(s.ledger, k) == 0 && Quantity(s.reservations, Held(k)) == 0
  }

  /** Each entry's balance is the running total of its key. */
  ghost predicate EntryOk(opening: map<Key, nat>, ledger: seq<Entry>, i: nat)
    requires i < |ledger|
  {
    ledger[i].balanceAfter == OpeningOf(opening, ledger[i].key) + Net(ledger[..i + 1], ledger[i].key)
  }

  ghost predicate LedgerOk(opening: map<Key, nat>, ledger: seq<Entry>) {
    forall i | 0 <= i < |ledger| :: EntryOk(opening, ledger, i)
  }

  ghost predicate Consistent(opening: map<Key, nat>, s: Stock) {
    && (forall k :: BalanceOk(opening, s, k))
    && LedgerOk(opening, s.ledger)
    && forall id | 0 <= id < |s.reservations| :: s.reservations[id].quantity > 0
  }

  // ---------- sums ----------

  lemma QuantityAppend(rs: seq<Reservation>, r: Reservation, f: Filter)
    ensures Quantity(rs + [r], f) == Quantity(rs, f) + Share(f, r)
  {
    assert (rs + [r])[..|rs|] == rs;
  }

  lemma {:induction false} QuantityUpdate(rs: seq<Reservation>, id: nat, r: Reservation, f: Filter)
    requires id < |rs|
    ensures Quantity(rs[id := r], f) == Quantity(rs, f) - Share(f, rs[id]) + Share(f, r)
    ensures Share(f, rs[id]) <= Quantity(rs, f)
  {
    var last := |rs| - 1;
    if id < last {
      QuantityUpdate(rs[..last], id, r, f);
      assert rs[id := r][..last] == rs[..last][id := r];
    } else {
      assert rs[id := r][..last] == rs[..last];
    }
  }

  lemma NetAppend(ledger: seq<Entry>, e: Entry, k: Key)
    ensures Net(ledger + [e], k) == Net(ledger, k) + if e.key == k then e.quantity else 0
  {
    assert (ledger + [e])[..|ledger|] == ledger;
  }

  lemma LedgerAppend(opening: map<Key, nat>, ledger: seq<Entry>, e: Entry)
    requires LedgerOk(opening, ledger)
    requires e.balanceAfter == OpeningOf(opening, e.key) + Net(ledger, e.key) + e.quantity
    ensures LedgerOk(opening, ledger + [e])
  {
    var longer := ledger + [e];
    NetAppend(ledger, e, e.key);
    forall i | 0 <= i < |longer|
      ensures EntryOk(opening, longer, i)
    {
      if i < |ledger| {
        assert EntryOk(opening, ledger, i);
        assert longer[..i + 1] == ledger[..i + 1];
      } else {
        assert longer[..i + 1] == longer;
      }
    }
  }

  /** Without any reservation that counts, nothing is added up. */
  lemma {:induction false} QuantityZero(rs: seq<Reservation>, f: Filter)
    ensures Quantity(rs, f) == 0 <==> forall id | 0 <= id < |rs| :: Share(f, rs[id]) == 0
  {
    if rs == [] {
    } else {
      var last := |rs| - 1;
      QuantityZero(rs[..last], f);
      assert forall id | 0 <= id < last :: rs[..last][id] == rs[id];
    }
  }

  // ---------- single steps ----------

  function Reserved(s: Stock, order: Option<nat>, k: Key, quantity: nat): Stock
    requires k in s.balances
  {
    s.(balances := s.balances[k := s.balances[k].(reserved := s.balances[k].reserved + quantity)],
       reservations := s.reservations + [Reservation(order, k, quantity, Active)])
  }

  /** A movement of stock that no reservation covers. */
  function Moved(s: Stock, k: Key, quantity: int, source: Source): Stock {
    var before := if k in s.balances then s.balances[k] else Balance(0, 0, DEFAULT_BUFFER);
    var after := before.onHand + quantity;
    s.(balances := s.balances[k := before.(onHand := after)], ledger := s.ledger + [Entry(k, source, quantity, after)])
  }

  function ReleasedAt(s: Stock, id: nat): Stock
    requires id < |s.reservations| && s.reservations[id].key in s.balances
  {
    var r := s.reservations[id];
    var b := s.balances[r.key];
    s.(balances := s.balances[r.key := b.(reserved := b.reserved - r.quantity)],
       reservations := s.reservations[id := r.(status := Released)])
  }

  function CommittedAt(s: Stock, id: nat): Stock
    requires id < |s.reservations| && s.reservations[id].key in s.balances
  {
    var r := s.reservations[id];
    var b := s.balances[r.key];
    var after := b.onHand - r.quantity;
    s.(balances := s.balances[r.key := b.(onHand := after, reserved := b.reserved - r.quantity)],
       reservations := s.reservations[id := r.(status := Committed)],
       ledger := s.ledger + [Entry(r.key, OrderCommit, 0 - r.quantity, after)])
  }

  /** Part of a reservation leaves the stock, the rest is released; the released part stays
      on record as a reservation of its own. */
  function SettledAt(s: Stock, id: nat, commit: nat): Stock
    requires id < |s.reservations| && s.reservations[id].key in s.balances
    requires commit <= s.reservations[id].quantity
  {
    var r := s.reservations[id];
    var b := s.balances[r.key];
    var after := b.onHand - commit;
    var release := r.quantity - commit;
    var row := if commit > 0 then r.(quantity := commit, status := Committed) else r.(status := Released);
    var settled := s.reservations[id := row];
    Stock(
      s.balances[r.key := b.(onHand := after, reserved := b.reserved - r.quantity)],
      if commit > 0 && release > 0 then settled + [Reservation(r.order, r.key, release, Released)] else settled,
      s.ledger + (if commit > 0 then [Entry(r.key, OrderCommit, 0 - commit, after)] else [])
               + (if release > 0 then [Entry(r.key, OrderRelease, 0, after)] else []))
  }

  lemma ReservedKeeps(opening: map<Key, nat>, s: Stock, order: Option<nat>, k: Key, quantity: nat)
    requires Consistent(opening, s) && k in s.balances && quantity > 0
    ensures Consistent(opening, Reserved(s, order, k, quantity))
  {
    hide Quantity, Net;
    var s' := Reserved(s, order, k, quantity);
    forall j
      ensures BalanceOk(opening, s', j)
    {
      assert BalanceOk(opening, s, j);
      QuantityAppend(s.reservations, Reservation(order, k, quantity, Active), Held(j));
    }
  }

  lemma MovedKeeps(opening: map<Key, nat>, s: Stock, k: Key, quantity: int, source: Source)
    requires Consistent(opening, s)
    requires (if k in s.balances then s.balances[k].onHand else 0) + quantity >= 0
    ensures Consistent(opening, Moved(s, k, quantity, source))
  {
    hide Quantity, Net;
    var s' := Moved(s, k, quantity, source);
    var e := s'.ledger[|s.ledger|];
    assert BalanceOk(opening, s, k);
    LedgerAppend(opening, s.ledger, e);
    forall j
      ensures BalanceOk(opening, s', j)
    {
      assert BalanceOk(opening, s, j);
      NetAppend(s.ledger, e, j);
    }
  }

  /** In a consistent stock an active reservation is covered: its balance exists and at
      least that much is reserved. */
  lemma ActiveIsCovered(opening: map<Key, nat>, s: Stock, id: nat)
    requires Consistent(opening, s) && id < |s.reservations| && s.reservations[id].status == Active
    ensures s.reservations[id].key in s.balances
    ensures s.balances[s.reservations[id].key].reserved >= s.reservations[id].quantity
  {
    var r := s.reservations[id];
    assert BalanceOk(opening, s, r.key);
    QuantityUpdate(s.reservations, id, r, Held(r.key));
  }

  lemma ReleasedKeeps(opening: map<Key, nat>, s: Stock, id: nat)
    requires Consistent(opening, s) && id < |s.reservations| && s.reservations[id].status == Active
    requires s.reservations[id].key in s.balances
    ensures Consistent(opening, ReleasedAt(s, id))
  {
    hide Quantity, Net;
    var r := s.reservations[id];
    forall j
      ensures BalanceOk(opening, ReleasedAt(s, id), j)
    {
      assert BalanceOk(opening, s, j);
      QuantityUpdate(s.reservations, id, r.(status := Released), Held(j));
    }
  }

  /** Committing a whole reservation is settling it in full. */
  lemma CommitIsFullSettle(s: Stock, id: nat)
    requires id < |s.reservations| && s.reservations[id].key in s.balances && s.reservations[id].quantity > 0
    ensures CommittedAt(s, id) == SettledAt(s, id, s.reservations[id].quantity)
  {
  }

  /** How settling changes the accounts: active quantities of the reservation's key and
      order lose it whole, quantities of any status lose nothing, and the ledger moves by
      what was committed. */
  lemma SettledChanges(s: Stock, id: nat, commit: nat, f: Filter, k: Key)
    requires id < |s.reservations| && s.reservations[id].key in s.balances && s.reservations[id].status == Active
    requires commit <= s.reservations[id].quantity
    ensures Quantity(SettledAt(s, id, commit).reservations, f) ==
            Quantity(s.reservations, f) - (if f.activeOnly then Share(f, s.reservations[id]) else 0)
    ensures Net(SettledAt(s, id, commit).ledger, k) ==
            Net(s.ledger, k) - (if s.reservations[id].key == k then commit else 0)
  {
    hide Quantity, Net;
    var r, s' := s.reservations[id], SettledAt(s, id, commit);
    var release := r.quantity - commit;
    var first := if commit > 0 then r.(quantity := commit, status := Committed) else r.(status := Released);
    QuantityUpdate(s.reservations, id, first, f);
    QuantityAppend(s.reservations[id := first], Reservation(r.order, r.key, release, Released), f);
    var after := s.balances[r.key].onHand - commit;
    var c, e := Entry(r.key, OrderCommit, 0 - commit, after), Entry(r.key, OrderRelease, 0, after);
    NetAppend(s.ledger, c, k);
    NetAppend(s.ledger + [c], e, k);
    NetAppend(s.ledger, e, k);
    assert s.ledger + [] == s.ledger && s.ledger + [c] + [] == s.ledger + [c];
  }

  lemma SettledLedger(opening: map<Key, nat>, s: Stock, id: nat, commit: nat)
    requires Consistent(opening, s) && id < |s.reservations| && s.reservations[id].key in s.balances
    requires commit <= s.reservations[id].quantity
    ensures LedgerOk(opening, SettledAt(s, id, commit).ledger)
  {
    hide Quantity, Net, LedgerOk;
    var r := s.reservations[id];
    assert BalanceOk(opening, s, r.key);
    var after := s.balances[r.key].onHand - commit;
    var c, e := Entry(r.key, OrderCommit, 0 - commit, after), Entry(r.key, OrderRelease, 0, after);
    NetAppend(s.ledger, c, r.key);
    assert s.ledger + [] == s.ledger && s.ledger + [c] + [] == s.ledger + [c];
    if commit > 0 {
      LedgerAppend(opening, s.ledger, c);
      LedgerAppend(opening, s.ledger + [c], e);
    } else {
      LedgerAppend(opening, s.ledger, e);
    }
  }

  lemma SettledKeeps(opening: map<Key, nat>, s: Stock, id: nat, commit: nat)
    requires Consistent(opening, s) && id < |s.reservations| && s.reservations[id].status == Active
    requires s.reservations[id].key in s.balances
    requires commit <= s.reservations[id].quantity && commit <= s.balances[s.reservations[id].key].onHand
    ensures Consistent(opening, SettledAt(s, id, commit))
  {
    hide Quantity, Net, LedgerOk;
    SettledLedger(opening, s, id, commit);
    forall j
      ensures BalanceOk(opening, SettledAt(s, id, commit), j)
    {
      assert BalanceOk(opening, s, j);
      SettledChanges(s, id, commit, Held(j), j);
    }
  }

  // ---------- cover ----------

  /** No more is reserved than is there. */
  ghost predicate Covered(s: Stock) {
    forall k | k in s.balances :: s.balances[k].reserved <= s.balances[k].onHand
  }

  /** Every single step but a downward adjustment keeps reservations covered. */
  lemma StepsKeepCover(s: Stock, id: nat, commit: nat, order: Option<nat>, k: Key, quantity: nat)
    requires Covered(s)
    ensures k in s.balances && s.balances[k].onHand - s.balances[k].reserved >= quantity ==>
              Covered(Reserved(s, order, k, quantity))
    ensures Covered(Moved(s, k, quantity, Receipt))
    ensures id < |s.reservations| && s.reservations[id].key in s.balances ==> Covered(ReleasedAt(s, id))
    ensures id < |s.reservations| && s.reservations[id].key in s.balances && commit <= s.reservations[id].quantity ==>
              Covered(SettledAt(s, id, commit))
  {
  }
}
