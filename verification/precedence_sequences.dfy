/** Enumerating the orders in which a route can pick up and deliver its orders. */
module PrecedenceSequences {
  import opened Prelude
  import opened RouteStops

  type Word = seq<RouteStop>

  const MAX_SEQUENCES := 600

  /** The word can be driven with these orders aboard and these still to be picked up,
      and leaves nothing undone. */
  ghost predicate Completes(w: Word, onboard: set<nat>, remaining: set<nat>) {
    if w == [] then onboard == {} && remaining == {}
    else
      match w[0]
      case Pickup(o) => o in remaining && Completes(w[1..], onboard + {o}, remaining - {o})
      case Delivery(o) => o in onboard && Completes(w[1..], onboard - {o}, remaining)
  }

  ghost predicate PicksUpFirst(w: Word) {
    forall j, k | 0 <= j < |w| && 0 <= k < |w| && w[j].Pickup? && w[k] == Delivery(w[j].order) :: j < k
  }

  /** Read as a whole: each order is picked up once, later delivered once, and nothing
      else happens. */
  ghost predicate ServesEachOnce(w: Word, onboard: set<nat>, remaining: set<nat>) {
    && (forall o :: multiset(w)[Pickup(o)] == if o in remaining then 1 else 0)
    && (forall o :: multiset(w)[Delivery(o)] == if o in onboard + remaining then 1 else 0)
    && PicksUpFirst(w)
  }

  lemma CountInTail(w: Word, a: RouteStop)
    requires w != []
    ensures multiset(w)[a] == multiset(w[1..])[a] + if w[0] == a then 1 else 0
  {
    assert w == [w[0]] + w[1..];
  }

  lemma Occurs(w: Word, a: RouteStop) returns (k: nat)
    requires multiset(w)[a] > 0
    ensures k < |w| && w[k] == a
  {
    assert a in multiset(w);
    k :| 0 <= k < |w| && w[k] == a;
  }

  /** The step-by-step reading and the reading as a whole agree. */
  lemma {:induction false} CompletesIffServesEachOnce(w: Word, onboard: set<nat>, remaining: set<nat>)
    requires onboard !! remaining
    ensures Completes(w, onboard, remaining) <==> ServesEachOnce(w, onboard, remaining)
    decreases |w|
  {
    if w == [] {
      if ServesEachOnce(w, onboard, remaining) {
        forall o ensures o !in onboard && o !in remaining {
          assert multiset(w)[Delivery(o)] == 0;
        }
      }
    } else {
      match w[0]
      case Pickup(o) =>
        if o in remaining {
          CompletesIffServesEachOnce(w[1..], onboard + {o}, remaining - {o});
          PickupFirst(w, onboard, remaining, o);
        } else {
          CountInTail(w, Pickup(o));
        }
      case Delivery(o) =>
        if o in onboard {
          CompletesIffServesEachOnce(w[1..], onboard - {o}, remaining);
          DeliveryFirst(w, onboard, remaining, o);
        } else {
          DeliveryTooEarly(w, onboard, remaining, o);
        }
    }
  }

  lemma TailOrder(w: Word)
    requires w != [] && PicksUpFirst(w)
    ensures PicksUpFirst(w[1..])
  {
    forall j, k | 0 <= j < |w[1..]| && 0 <= k < |w[1..]| && w[1..][j].Pickup? && w[1..][k] == Delivery(w[1..][j].order)
      ensures j < k
    {
      assert w[j + 1] == w[1..][j] && w[k + 1] == w[1..][k];
    }
  }

  lemma PickupThenTail(w: Word)
    requires w != [] && w[0].Pickup? && PicksUpFirst(w[1..])
    ensures PicksUpFirst(w)
  {
    forall j, k | 0 <= j < |w| && 0 <= k < |w| && w[j].Pickup? && w[k] == Delivery(w[j].order)
      ensures j < k
    {
      if j > 0 {
        assert k > 0 && w[1..][j - 1] == w[j] && w[1..][k - 1] == w[k];
      }
    }
  }

  lemma DeliveryThenTail(w: Word)
    requires w != [] && w[0].Delivery? && PicksUpFirst(w[1..]) && Pickup(w[0].order) !in w[1..]
    ensures PicksUpFirst(w)
  {
    forall j, k | 0 <= j < |w| && 0 <= k < |w| && w[j].Pickup? && w[k] == Delivery(w[j].order)
      ensures j < k
    {
      assert j > 0 && w[1..][j - 1] == w[j];
      if k > 0 { assert w[1..][k - 1] == w[k]; }
    }
  }

  lemma PickupFirst(w: Word, onboard: set<nat>, remaining: set<nat>, o: nat)
    requires w != [] && w[0] == Pickup(o) && o in remaining && onboard !! remaining
    ensures ServesEachOnce(w, onboard, remaining) <==> ServesEachOnce(w[1..], onboard + {o}, remaining - {o})
  {
    hide PicksUpFirst;
    forall a ensures multiset(w)[a] == multiset(w[1..])[a] + if w[0] == a then 1 else 0 {
      CountInTail(w, a);
    }
    if ServesEachOnce(w, onboard, remaining) {
      TailOrder(w);
      forall x
        ensures multiset(w[1..])[Pickup(x)] == if x in remaining - {o} then 1 else 0
        ensures multiset(w[1..])[Delivery(x)] == if x in onboard + {o} + (remaining - {o}) then 1 else 0
      {
        assert multiset(w)[Pickup(x)] == multiset(w[1..])[Pickup(x)] + if x == o then 1 else 0;
        assert multiset(w)[Delivery(x)] == multiset(w[1..])[Delivery(x)];
      }
    }
    if ServesEachOnce(w[1..], onboard + {o}, remaining - {o}) {
      forall x
        ensures multiset(w)[Pickup(x)] == if x in remaining then 1 else 0
        ensures multiset(w)[Delivery(x)] == if x in onboard + remaining then 1 else 0
      {
        assert multiset(w)[Pickup(x)] == multiset(w[1..])[Pickup(x)] + if x == o then 1 else 0;
        assert multiset(w)[Delivery(x)] == multiset(w[1..])[Delivery(x)];
      }
      PickupThenTail(w);
    }
  }

  lemma DeliveryFirst(w: Word, onboard: set<nat>, remaining: set<nat>, o: nat)
    requires w != [] && w[0] == Delivery(o) && o in onboard && onboard !! remaining
    ensures ServesEachOnce(w, onboard, remaining) <==> ServesEachOnce(w[1..], onboard - {o}, remaining)
  {
    hide PicksUpFirst;
    forall a ensures multiset(w)[a] == multiset(w[1..])[a] + if w[0] == a then 1 else 0 {
      CountInTail(w, a);
    }
    if ServesEachOnce(w, onboard, remaining) {
      TailOrder(w);
      forall x
        ensures multiset(w[1..])[Pickup(x)] == if x in remaining then 1 else 0
        ensures multiset(w[1..])[Delivery(x)] == if x in onboard - {o} + remaining then 1 else 0
      {
        assert multiset(w)[Pickup(x)] == multiset(w[1..])[Pickup(x)];
        assert multiset(w)[Delivery(x)] == multiset(w[1..])[Delivery(x)] + if x == o then 1 else 0;
      }
    }
    if ServesEachOnce(w[1..], onboard - {o}, remaining) {
      forall x
        ensures multiset(w)[Pickup(x)] == if x in remaining then 1 else 0
        ensures multiset(w)[Delivery(x)] == if x in onboard + remaining then 1 else 0
      {
        assert multiset(w)[Pickup(x)] == multiset(w[1..])[Pickup(x)];
        assert multiset(w)[Delivery(x)] == multiset(w[1..])[Delivery(x)] + if x == o then 1 else 0;
      }
      assert Pickup(o) !in multiset(w[1..]) by {
        assert o !in remaining;
      }
      DeliveryThenTail(w);
    }
  }

  lemma DeliveryTooEarly(w: Word, onboard: set<nat>, remaining: set<nat>, o: nat)
    requires w != [] && w[0] == Delivery(o) && o !in onboard
    ensures !ServesEachOnce(w, onboard, remaining)
  {
    if multiset(w)[Pickup(o)] == 1 {
      var j := Occurs(w, Pickup(o));
      assert w[j].Pickup? && w[0] == Delivery(w[j].order);
      assert !PicksUpFirst(w);
    } else {
      assert w[0] in multiset(w);
    }
  }

  // ---------- how many there are ----------

  /** The number of ways to finish with `p` orders to pick up and `q` aboard. */
  ghost function Ways(p: nat, q: nat): nat
    decreases 2 * p + q
  {
    if p == 0 && q == 0 then 1
    else (if p > 0 then p * Ways(p - 1, q + 1) else 0) + (if q > 0 then q * Ways(p, q - 1) else 0)
  }

  ghost function Factorial(n: nat): nat {
    if n == 0 then 1 else n * Factorial(n - 1)
  }

  ghost function PowerOfTwo(n: nat): nat {
    if n == 0 then 1 else 2 * PowerOfTwo(n - 1)
  }

  /** Closed form: there are (2p + q)! / 2^p ways. */
  lemma {:induction false} WaysClosedForm(p: nat, q: nat)
    ensures Ways(p, q) * PowerOfTwo(p) == Factorial(2 * p + q)
    decreases 2 * p + q
  {
    if p == 0 && q == 0 {
    } else {
      var f := Factorial(2 * p + q - 1);
      if p > 0 { WaysClosedForm(p - 1, q + 1); }
      if q > 0 { WaysClosedForm(p, q - 1); }
      var t := PowerOfTwo(p);
      var byPickup := if p > 0 then p * Ways(p - 1, q + 1) else 0;
      var byDelivery := if q > 0 then q * Ways(p, q - 1) else 0;
      assert byPickup * t == 2 * p * f by {
        if p > 0 { PickupShare(p, Ways(p - 1, q + 1), PowerOfTwo(p - 1), f); }
      }
      assert byDelivery * t == q * f by {
        if q > 0 { DeliveryShare(q, Ways(p, q - 1), t, f); }
      }
      AddShares(byPickup, byDelivery, t, p, q, f);
    }
  }

  lemma PickupShare(p: nat, w: nat, half: nat, f: nat)
    requires w * half == f
    ensures (p * w) * (2 * half) == 2 * p * f
  {
    assert (p * w) * (2 * half) == 2 * p * (w * half);
  }

  lemma DeliveryShare(q: nat, w: nat, t: nat, f: nat)
    requires w * t == f
    ensures (q * w) * t == q * f
  {
    assert (q * w) * t == q * (w * t);
  }

  lemma AddShares(a: nat, b: nat, t: nat, p: nat, q: nat, f: nat)
    requires a * t == 2 * p * f && b * t == q * f
    ensures (a + b) * t == (2 * p + q) * f
  {
    assert (a + b) * t == a * t + b * t;
    assert (2 * p + q) * f == 2 * p * f + q * f;
  }

  lemma {:induction false} WaysPositive(p: nat, q: nat)
    ensures Ways(p, q) > 0
    decreases 2 * p + q
  {
    if p > 0 {
      WaysPositive(p - 1, q + 1);
      WaysByPickup(p, q);
    } else if q > 0 {
      WaysPositive(0, q - 1);
      WaysByDelivery(q);
    }
  }

  lemma WaysByPickup(p: nat, q: nat)
    requires p > 0
    ensures Ways(p, q) >= Ways(p - 1, q + 1)
  {
    AtLeastOneTime(p, Ways(p - 1, q + 1));
  }

  lemma WaysByDelivery(q: nat)
    requires q > 0
    ensures Ways(0, q) >= Ways(0, q - 1)
  {
    AtLeastOneTime(q, Ways(0, q - 1));
  }

  lemma AtLeastOneTime(a: nat, b: nat)
    requires a > 0
    ensures a * b >= b
  {
    assert a * b == (a - 1) * b + b;
  }

  // ---------- the enumeration ----------

  /** Adding this many words to a list that stops growing at the limit. */
  function Capped(count: nat, more: nat): nat {
    if count + more <= MAX_SEQUENCES then count + more else MAX_SEQUENCES
  }

  ghost predicate NoneExtends(words: seq<Word>, prefix: Word) {
    forall w | w in words :: !(prefix <= w)
  }

  /** Every completion of the prefix was found, each once, or the limit was reached. */
  ghost predicate Found(start: seq<Word>, words: seq<Word>, prefix: Word, onboard: set<nat>, remaining: set<nat>,
      ways: nat, timedOut: bool) {
    && start <= words && Distinct(words) && |words| <= MAX_SEQUENCES
    && (forall w | w in words[|start|..] :: CompletesFrom(w, prefix, onboard, remaining))
    && (!timedOut ==> |words| == Capped(|start|, ways))
    && (!timedOut && |start| + ways <= MAX_SEQUENCES ==>
          forall w | Completes(w, onboard, remaining) :: prefix + w in words)
  }

  ghost predicate CompletesFrom(w: Word, prefix: Word, onboard: set<nat>, remaining: set<nat>) {
    prefix <= w && Completes(w[|prefix|..], onboard, remaining)
  }

  ghost predicate Continues(w: Word, prefix: Word, tried: set<RouteStop>, onboard: set<nat>, remaining: set<nat>) {
    prefix < w && w[|prefix|] in tried && Completes(w[|prefix|..], onboard, remaining)
  }

  /** The same for the completions that start with one of these actions. */
  ghost predicate FoundAfter(start: seq<Word>, words: seq<Word>, prefix: Word, tried: set<RouteStop>,
                             onboard: set<nat>, remaining: set<nat>, ways: nat, timedOut: bool)
  {
    && start <= words && Distinct(words) && |words| <= MAX_SEQUENCES
    && (forall w | w in words[|start|..] :: Continues(w, prefix, tried, onboard, remaining))
    && (!timedOut ==> |words| == Capped(|start|, ways))
    && (!timedOut && |start| + ways <= MAX_SEQUENCES ==> HasAll(words, prefix, tried, onboard, remaining))
  }

  ghost predicate HasAll(words: seq<Word>, prefix: Word, tried: set<RouteStop>, onboard: set<nat>,
      remaining: set<nat>) {
    forall w | w != [] && w[0] in tried && Completes(w, onboard, remaining) :: prefix + w in words
  }

  lemma LeafFound(start: seq<Word>, prefix: Word)
    requires Distinct(start) && NoneExtends(start, prefix) && |start| < MAX_SEQUENCES
    ensures Found(start, start + [prefix], prefix, {}, {}, 1, false)
  {
    assert (start + [prefix])[|start|..] == [prefix];
    assert prefix[|prefix|..] == [];
    assert prefix !in start;
    assert forall j | 0 <= j < |start| :: start[j] in start;
    forall w | Completes(w, {}, {})
      ensures prefix + w in start + [prefix]
    {
      assert w == [];
      assert prefix + w == prefix;
    }
  }

  lemma NothingFound(start: seq<Word>, prefix: Word, onboard: set<nat>, remaining: set<nat>, ways: nat, timedOut: bool)
    requires Distinct(start) && |start| <= MAX_SEQUENCES
    requires timedOut || (|start| == MAX_SEQUENCES && ways > 0)
    ensures Found(start, start, prefix, onboard, remaining, ways, timedOut)
  {
  }

  lemma NothingTried(start: seq<Word>, prefix: Word, onboard: set<nat>, remaining: set<nat>, timedOut: bool)
    requires Distinct(start) && |start| <= MAX_SEQUENCES
    ensures FoundAfter(start, start, prefix, {}, onboard, remaining, 0, timedOut)
  {
  }

  lemma NextActionIsNew(start: seq<Word>, words: seq<Word>, prefix: Word, tried: set<RouteStop>,
                        onboard: set<nat>, remaining: set<nat>, ways: nat, timedOut: bool, a: RouteStop)
    requires FoundAfter(start, words, prefix, tried, onboard, remaining, ways, timedOut)
    requires NoneExtends(start, prefix) && a !in tried
    ensures NoneExtends(words, prefix + [a])
  {
    forall w | w in words
      ensures !(prefix + [a] <= w)
    {
      assert prefix + [a] <= w ==> prefix <= w;
      if w in words[|start|..] {
        assert Continues(w, prefix, tried, onboard, remaining);
      } else {
        assert w in start;
      }
    }
  }

  lemma TriedOneMore(start: seq<Word>, words: seq<Word>, more: seq<Word>, prefix: Word, tried: set<RouteStop>,
                     onboard: set<nat>, remaining: set<nat>, ways: nat, before: bool,
                     a: RouteStop, nextOnboard: set<nat>, nextRemaining: set<nat>, nextWays: nat, after: bool)
    requires FoundAfter(start, words, prefix, tried, onboard, remaining, ways, before)
    requires Found(words, more, prefix + [a], nextOnboard, nextRemaining, nextWays, after)
    requires before ==> after
    requires forall w | w != [] && w[0] == a ::
               Completes(w, onboard, remaining) <==> Completes(w[1..], nextOnboard, nextRemaining)
    ensures FoundAfter(start, more, prefix, tried + {a}, onboard, remaining, ways + nextWays, after)
  {
    forall w | w in more[|start|..]
      ensures Continues(w, prefix, tried + {a}, onboard, remaining)
    {
      if w in more[|words|..] {
        assert CompletesFrom(w, prefix + [a], nextOnboard, nextRemaining);
        assert w[|prefix|..][1..] == w[|prefix + [a]|..];
        assert prefix < w && w[|prefix|] == a;
      } else {
        assert more[|start|..] == words[|start|..] + more[|words|..];
        assert Continues(w, prefix, tried, onboard, remaining);
      }
    }
    if !after && |start| + ways + nextWays <= MAX_SEQUENCES {
      forall w | w != [] && w[0] in tried + {a} && Completes(w, onboard, remaining)
        ensures prefix + w in more
      {
        if w[0] == a {
          assert prefix + w == prefix + [a] + w[1..];
        } else {
          assert prefix + w in words;
        }
      }
    }
  }

  lemma AllTried(start: seq<Word>, words: seq<Word>, prefix: Word, tried: set<RouteStop>,
                 onboard: set<nat>, remaining: set<nat>, ways: nat, timedOut: bool)
    requires FoundAfter(start, words, prefix, tried, onboard, remaining, ways, timedOut)
    requires onboard + remaining != {}
    requires forall o :: o in remaining ==> Pickup(o) in tried
    requires forall o :: o in onboard ==> Delivery(o) in tried
    ensures Found(start, words, prefix, onboard, remaining, ways, timedOut)
  {
    forall w | w in words[|start|..]
      ensures CompletesFrom(w, prefix, onboard, remaining)
    {
      assert Continues(w, prefix, tried, onboard, remaining);
    }
    if !timedOut && |start| + ways <= MAX_SEQUENCES {
      forall w | Completes(w, onboard, remaining)
        ensures prefix + w in words
      {
        assert w != [] && w[0] in tried;
      }
    }
  }

  ghost function PickupsOf(s: seq<nat>): set<RouteStop> {
    set o | o in s :: Pickup(o)
  }

  ghost function DeliveriesOf(s: seq<nat>): set<RouteStop> {
    set o | o in s :: Delivery(o)
  }

  class SequenceGenerator {
    var currentSeq: Word
    var validSequences: seq<Word>
    var timedOut: bool

    constructor ()
      ensures currentSeq == [] && validSequences == [] && !timedOut
    {
      currentSeq, validSequences, timedOut := [], [], false;
    }

    /** Time only moves on: a deadline that has passed stays passed. */
    method DeadlinePassed() returns (passed: bool)
      modifies this`timedOut
      ensures passed == timedOut
      ensures old(timedOut) ==> timedOut
    {
      var now: bool := *;
      timedOut := timedOut || now;
      passed := timedOut;
    }

    /** Tries every next action, pickups first and deliveries last in, first out. */
    method Backtrack(onboard: seq<nat>, remaining: seq<nat>)
      requires Distinct(onboard) && Distinct(remaining) && Elements(onboard) !! Elements(remaining)
      requires Distinct(validSequences) && NoneExtends(validSequences, currentSeq)
      requires |validSequences| <= MAX_SEQUENCES
      requires onboard == [] && remaining == [] ==> |validSequences| < MAX_SEQUENCES
      modifies this
      ensures currentSeq == old(currentSeq)
      ensures old(timedOut) ==> timedOut
      ensures Found(old(validSequences), validSequences, currentSeq, Elements(onboard), Elements(remaining),
                    Ways(|remaining|, |onboard|), timedOut)
      decreases 2 * |remaining| + |onboard|, 1
    {
      hide Found, FoundAfter, NoneExtends, Completes, Ways, Times;
      ghost var start, cur := validSequences, currentSeq;
      ghost var O, R := Elements(onboard), Elements(remaining);
      ghost var byPickup, byDelivery := WaysAfter(|remaining|, |onboard|);
      var passed := DeadlinePassed();
      if passed {
        NothingFound(start, cur, O, R, Ways(|remaining|, |onboard|), true);
        return;
      }
      if onboard == [] && remaining == [] {
        assert O == {} && R == {};
        LeafFound(start, cur);
        validSequences := validSequences + [currentSeq];
        return;
      }
      if |validSequences| >= MAX_SEQUENCES {
        WaysPositive(|remaining|, |onboard|);
        NothingFound(start, cur, O, R, Ways(|remaining|, |onboard|), false);
        return;
      }
      NothingTried(start, cur, O, R, timedOut);
      TimesZero(byPickup);
      TimesZero(byDelivery);
      assert PickupsOf(remaining[..0]) == {};
      for i := 0 to |remaining|
        invariant currentSeq == cur
        invariant i == 0 ==> validSequences == start
        invariant FoundAfter(start, validSequences, cur, PickupsOf(remaining[..i]), O, R, Times(i, byPickup),
                    timedOut)
      {
        PickUp(start, PickupsOf(remaining[..i]), onboard, remaining, remaining[i], Times(i, byPickup), byPickup);
        TimesNext(i, byPickup);
        assert remaining[..i + 1] == remaining[..i] + [remaining[i]];
        assert PickupsOf(remaining[..i + 1]) == PickupsOf(remaining[..i]) + {Pickup(remaining[i])};
      }
      ghost var pickups := PickupsOf(remaining);
      assert remaining[..|remaining|] == remaining;
      assert onboard[|onboard|..] == [];
      assert pickups + DeliveriesOf([]) == pickups;
      for i := |onboard| downto 0
        invariant currentSeq == cur
        invariant i == |onboard| && remaining == [] ==> validSequences == start
        invariant FoundAfter(start, validSequences, cur, pickups + DeliveriesOf(onboard[i..]), O, R,
                             Times(|remaining|, byPickup) + Times(|onboard| - i, byDelivery), timedOut)
      {
        ghost var tried := pickups + DeliveriesOf(onboard[i + 1..]);
        ghost var ways := Times(|remaining|, byPickup) + Times(|onboard| - i - 1, byDelivery);
        Deliver(start, tried, onboard, remaining, onboard[i], ways, byDelivery);
        assert onboard[i..] == [onboard[i]] + onboard[i + 1..];
        assert pickups + DeliveriesOf(onboard[i..]) == tried + {Delivery(onboard[i])};
        TimesNext(|onboard| - i - 1, byDelivery);
      }
      assert onboard[0..] == onboard;
      assert O + R != {} by {
        assert if remaining != [] then remaining[0] in O + R else onboard[0] in O + R;
      }
      AllTried(start, validSequences, cur, pickups + DeliveriesOf(onboard), O, R, Ways(|remaining|, |onboard|),
          timedOut);
    }

    method PickUp(ghost start: seq<Word>, ghost tried: set<RouteStop>, onboard: seq<nat>, remaining: seq<nat>, o: nat,
                  ghost ways: nat, ghost nextWays: nat)
      requires Distinct(onboard) && Distinct(remaining) && Elements(onboard) !! Elements(remaining)
      requires o in remaining && Pickup(o) !in tried && NoneExtends(start, currentSeq)
      requires nextWays == Ways(|remaining| - 1, |onboard| + 1)
      requires FoundAfter(start, validSequences, currentSeq, tried, Elements(onboard), Elements(remaining), ways,
                 timedOut)
      modifies this
      ensures currentSeq == old(currentSeq)
      ensures old(timedOut) ==> timedOut
      ensures FoundAfter(start, validSequences, currentSeq, tried + {Pickup(o)}, Elements(onboard), Elements(remaining),
                         ways + nextWays, timedOut)
      decreases 2 * |remaining| + |onboard|, 0
    {
      hide FoundAfter, Found, NoneExtends, Ways;
      ghost var words, prefix, before := validSequences, currentSeq, timedOut;
      ghost var O, R := Elements(onboard), Elements(remaining);
      FoundIsDistinct(start, words, prefix, tried, O, R, ways, before);
      NextActionIsNew(start, words, prefix, tried, O, R, ways, before, Pickup(o));
      currentSeq := currentSeq + [Pickup(o)];
      var rest := Without(remaining, o);
      assert Elements(rest) == R - {o};
      assert Elements(onboard + [o]) == O + {o};
      Backtrack(onboard + [o], rest);
      currentSeq := currentSeq[..|currentSeq| - 1];
      assert currentSeq == prefix;
      TriedOneMore(start, words, validSequences, prefix, tried, O, R, ways, before,
                   Pickup(o), O + {o}, R - {o}, nextWays, timedOut);
    }

    method Deliver(ghost start: seq<Word>, ghost tried: set<RouteStop>, onboard: seq<nat>, remaining: seq<nat>, o: nat,
                   ghost ways: nat, ghost nextWays: nat)
      requires Distinct(onboard) && Distinct(remaining) && Elements(onboard) !! Elements(remaining)
      requires o in onboard && Delivery(o) !in tried && NoneExtends(start, currentSeq)
      requires nextWays == Ways(|remaining|, |onboard| - 1)
      requires |onboard| == 1 && remaining == [] ==> |validSequences| < MAX_SEQUENCES
      requires FoundAfter(start, validSequences, currentSeq, tried, Elements(onboard), Elements(remaining), ways,
                 timedOut)
      modifies this
      ensures currentSeq == old(currentSeq)
      ensures old(timedOut) ==> timedOut
      ensures FoundAfter(start, validSequences, currentSeq, tried + {Delivery(o)}, Elements(onboard),
                         Elements(remaining), ways + nextWays, timedOut)
      decreases 2 * |remaining| + |onboard|, 0
    {
      hide FoundAfter, Found, NoneExtends, Ways;
      ghost var words, prefix, before := validSequences, currentSeq, timedOut;
      ghost var O, R := Elements(onboard), Elements(remaining);
      FoundIsDistinct(start, words, prefix, tried, O, R, ways, before);
      NextActionIsNew(start, words, prefix, tried, O, R, ways, before, Delivery(o));
      currentSeq := currentSeq + [Delivery(o)];
      var rest := Without(onboard, o);
      assert Elements(rest) == O - {o};
      Backtrack(rest, remaining);
      currentSeq := currentSeq[..|currentSeq| - 1];
      assert currentSeq == prefix;
      TriedOneMore(start, words, validSequences, prefix, tried, O, R, ways, before,
                   Delivery(o), O - {o}, R, nextWays, timedOut);
    }
  }

  /** Without a deadline: distinct sequences only, each order picked up once and later
      delivered once, never more than the limit, and every such sequence when there
      are (2n)! / 2^n of them and that many are allowed. */
  method GenerateSequences(orders: seq<nat>) returns (sequences: seq<Word>, timedOut: bool)
    requires Distinct(orders)
    ensures Distinct(sequences) && |sequences| <= 600
    ensures forall w | w in sequences :: ServesEachOnce(w, {}, Elements(orders))
    ensures !timedOut && Factorial(2 * |orders|) > 600 * PowerOfTwo(|orders|) ==> |sequences| == 600
    ensures !timedOut && Factorial(2 * |orders|) <= 600 * PowerOfTwo(|orders|) ==>
              && |sequences| * PowerOfTwo(|orders|) == Factorial(2 * |orders|)
              && forall w :: ServesEachOnce(w, {}, Elements(orders)) <==> w in sequences
  {
    hide Completes, ServesEachOnce, Ways, Factorial, PowerOfTwo;
    var g := new SequenceGenerator();
    g.Backtrack([], orders);
    sequences, timedOut := g.validSequences, g.timedOut;
    ghost var n, R := |orders|, Elements(orders);
    assert Elements<nat>([]) == {};
    assert Found([], sequences, [], {}, R, Ways(n, 0), timedOut);
    assert sequences[0..] == sequences;
    forall w
      ensures Completes(w, {}, R) <==> ServesEachOnce(w, {}, R)
    {
      CompletesIffServesEachOnce(w, {}, R);
    }
    forall w | w in sequences
      ensures Completes(w, {}, R)
    {
      assert CompletesFrom(w, [], {}, R);
    }
    if !timedOut {
      WaysClosedForm(n, 0);
      PowerOfTwoPositive(n);
      Compare(Ways(n, 0), PowerOfTwo(n));
      if Ways(n, 0) <= MAX_SEQUENCES {
        forall w | Completes(w, {}, R)
          ensures w in sequences
        {
          assert [] + w == w;
        }
      }
    }
  }

  lemma PowerOfTwoPositive(n: nat)
    ensures PowerOfTwo(n) > 0
  {
  }

  lemma Compare(ways: nat, t: nat)
    requires t > 0
    ensures ways <= MAX_SEQUENCES <==> ways * t <= MAX_SEQUENCES * t
  {
  }

  lemma FoundIsDistinct(start: seq<Word>, words: seq<Word>, prefix: Word, tried: set<RouteStop>,
                        onboard: set<nat>, remaining: set<nat>, ways: nat, timedOut: bool)
    requires FoundAfter(start, words, prefix, tried, onboard, remaining, ways, timedOut)
    ensures Distinct(words) && |words| <= MAX_SEQUENCES && start <= words
  {
  }

  lemma WaysAfter(p: nat, q: nat) returns (byPickup: nat, byDelivery: nat)
    ensures p > 0 ==> byPickup == Ways(p - 1, q + 1)
    ensures q > 0 ==> byDelivery == Ways(p, q - 1)
    ensures p + q == 0 ==> Ways(p, q) == 1
    ensures p + q > 0 ==> Ways(p, q) == Times(p, byPickup) + Times(q, byDelivery)
  {
    byPickup := if p > 0 then Ways(p - 1, q + 1) else 0;
    byDelivery := if q > 0 then Ways(p, q - 1) else 0;
  }
}
