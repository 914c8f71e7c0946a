/** The search budget, and the search for an executable order in which the packages
    of one delivery leave the truck. */
module UnloadSearch {
  import opened Prelude
  import opened Geometry
  import opened EscapeSearch
  import opened Replay
  import opened Sorting

  /** Why a search was cut short. */
  datatype LimitCause = NodesUsedUp | TimeUp | TooManyLayouts

  /** Node and time budget shared by the whole search; `limitReached` never resets. */
  class SearchContext {
    const maxNodes: nat
    var visitedNodes: nat
    var limitReached: bool
    ghost var causes: set<LimitCause>

    /** The flag is set for a cause, and the nodes are used up only when all were visited. */
    ghost predicate Explained()
      reads this
    {
      && (limitReached <==> causes != {})
      && visitedNodes <= maxNodes && (NodesUsedUp in causes ==> visitedNodes == maxNodes)
    }

    constructor (maxNodes: nat)
      ensures this.maxNodes == maxNodes && visitedNodes == 0 && !limitReached && causes == {} && Explained()
    {
      this.maxNodes := maxNodes;
      visitedNodes, limitReached, causes := 0, false, {};
    }

    /** `timeUp` stands for the clock, which is read at every 64th node. */
    method ConsumeNode() returns (ok: bool)
      requires Explained()
      modifies this
      ensures Explained() && (TooManyLayouts in causes <==> TooManyLayouts in old(causes))
      ensures ok ==> limitReached == old(limitReached)
                     && visitedNodes == old(visitedNodes) + 1 <= maxNodes
      ensures !ok ==> limitReached && visitedNodes == old(visitedNodes)
    {
      if visitedNodes >= maxNodes {
        limitReached, causes := true, causes + {NodesUsedUp};
        return false;
      }
      var timeUp: bool := *;
      if visitedNodes % 64 == 0 && timeUp {
        limitReached, causes := true, causes + {TimeUp};
        return false;
      }
      visitedNodes := visitedNodes + 1;
      return true;
    }
  }

  // ---------- unloading never needs to be taken back ----------

  /** Dropping one package from a legal order leaves a legal order for the rest. */
  lemma {:induction false} OrderWithout(f: Floor, layout: Layout, order: seq<ItemId>, id: ItemId)
    requires IsUnloadOrder(f, layout, order)
    ensures IsUnloadOrder(f, layout - {id}, Without(order, id))
    decreases |order|
  {
    if order == [] {
    } else {
      OrderWithout(f, layout - {order[0]}, order[1..], id);
      var rest := Without(order[1..], id);
      if order[0] == id {
        assert layout - {id} - {id} == layout - {id};
      } else {
        EscapeMonotone(f, layout[order[0]].rect, Obstacles(layout - {id}, order[0]), Obstacles(layout, order[0]));
        assert layout - {id} - {order[0]} == layout - {order[0]} - {id};
        assert Without(order, id)[1..] == rest;
      }
    }
  }

  /** Taking off any package that is clear now never loses a solution. */
  lemma FirstClearDecides(f: Floor, layout: Layout, ids: set<ItemId>, id: ItemId)
    requires id in ids && CanLeave(f, layout, id)
    ensures CanUnload(f, layout, ids) <==> CanUnload(f, layout - {id}, ids - {id})
  {
    if CanUnload(f, layout, ids) {
      var order: seq<ItemId> :| IsUnloadOrder(f, layout, order) && Elements(order) == ids;
      OrderWithout(f, layout, order, id);
      var rest := Without(order, id);
      assert forall x :: x in Elements(rest) <==> x in Elements(order) && x != id;
      assert Elements(rest) == ids - {id};
    }
    if CanUnload(f, layout - {id}, ids - {id}) {
      var rest: seq<ItemId> :| IsUnloadOrder(f, layout - {id}, rest) && Elements(rest) == ids - {id};
      var order := [id] + rest;
      assert order[1..] == rest && IsUnloadOrder(f, layout, order);
      assert forall x :: x in Elements(order) <==> x == id || x in Elements(rest);
      assert Elements(order) == ids;
    }
  }

  lemma NothingClear(f: Floor, layout: Layout, ids: set<ItemId>)
    requires ids != {}
    requires forall id | id in ids :: !CanLeave(f, layout, id)
    ensures !CanUnload(f, layout, ids)
  {
    forall order: seq<ItemId> | IsUnloadOrder(f, layout, order)
      ensures Elements(order) != ids
    {
      if order != [] {
        assert order[0] in Elements(order) && CanLeave(f, layout, order[0]);
      }
    }
  }

  // ---------- the search ----------

  /** Door-nearest packages first, then by lateral position and identifier, largest first. */
  predicate LeavesFirst(layout: Layout, i: ItemId, j: ItemId) {
    if i in layout && j in layout then
      var a, b := layout[i].rect, layout[j].rect;
      if a.x + a.length != b.x + b.length then a.x + a.length > b.x + b.length
      else if a.y != b.y then a.y > b.y
      else i >= j
    else true
  }

  /** Remaining sets already shown impossible, given what was aboard at the start. */
  ghost predicate FailuresSound(f: Floor, whole: Layout, ids: set<ItemId>, failed: set<set<ItemId>>) {
    forall key | key in failed :: !CanUnload(f, whole - (ids - key), key)
  }

  /** Asking whether a package can leave now. */
  method IsClearToLeave(f: Floor, layout: Layout, id: ItemId) returns (clear: bool)
    requires GoodLayout(f, layout) && id in layout
    ensures clear <==> CanLeave(f, layout, id)
  {
    assert Clear(layout[id].rect, Obstacles(layout, id));
    clear := IsPathToDoorClear(f, layout[id].rect, Obstacles(layout, id));
  }

  lemma RestOf(remaining: seq<ItemId>, id: ItemId)
    requires id in remaining && forall j, k | 0 <= j < k < |remaining| :: remaining[j] != remaining[k]
    ensures var rest := Without(remaining, id);
            && Elements(rest) == Elements(remaining) - {id}
            && |rest| == |remaining| - 1
            && forall j, k | 0 <= j < k < |rest| :: rest[j] != rest[k]
  {
    assert Distinct(remaining);
    assert forall x :: x in Without(remaining, id) <==> x in remaining && x != id;
  }

  lemma LeaveFirst(f: Floor, layout: Layout, id: ItemId, suffix: seq<ItemId>)
    requires CanLeave(f, layout, id) && IsUnloadOrder(f, layout - {id}, suffix)
    ensures IsUnloadOrder(f, layout, [id] + suffix)
    ensures Elements([id] + suffix) == {id} + Elements(suffix)
  {
    assert ([id] + suffix)[1..] == suffix;
  }

  method SearchUnload(f: Floor, onboard: Layout, remaining: seq<ItemId>, failed: set<set<ItemId>>,
                      context: SearchContext, ghost whole: Layout, ghost ids: set<ItemId>)
    returns (order: Option<seq<ItemId>>, failed': set<set<ItemId>>)
    requires GoodLayout(f, onboard) && Elements(remaining) <= onboard.Keys
    requires onboard == whole - (ids - Elements(remaining)) && Elements(remaining) <= ids
    requires forall j, k | 0 <= j < k < |remaining| :: remaining[j] != remaining[k]
    requires !context.limitReached ==> FailuresSound(f, whole, ids, failed)
    requires context.Explained()
    modifies context
    ensures context.Explained() && (TooManyLayouts in context.causes <==> TooManyLayouts in old(context.causes))
    ensures old(context.limitReached) ==> context.limitReached
    ensures !context.limitReached ==> FailuresSound(f, whole, ids, failed')
    ensures order.Some? ==> IsUnloadOrder(f, onboard, order.value) && Elements(order.value) == Elements(remaining)
    ensures order.None? && !context.limitReached ==> !CanUnload(f, onboard, Elements(remaining))
    decreases |remaining|
  {
    hide CanLeave, CanUnload, GoodLayout;
    failed' := failed;
    if remaining == [] {
      return Some([]), failed';
    }
    var ok := context.ConsumeNode();
    if !ok {
      return None, failed';
    }
    var remainingKey := Elements(remaining);
    if remainingKey in failed' {
      return None, failed';
    }
    var candidates := SortBy(remaining, (i, j) => LeavesFirst(onboard, i, j));
    SameMembers(candidates, remaining);
    for k := 0 to |candidates|
      invariant old(context.limitReached) ==> context.limitReached
      invariant context.Explained() && (TooManyLayouts in context.causes <==> TooManyLayouts in old(context.causes))
      invariant !context.limitReached ==> FailuresSound(f, whole, ids, failed')
      invariant context.limitReached || !CanUnload(f, onboard, remainingKey)
                || forall j | 0 <= j < k :: !CanLeave(f, onboard, candidates[j])
    {
      var id := candidates[k];
      assert id in candidates && id in remaining && id in Elements(remaining);
      var clear := IsClearToLeave(f, onboard, id);
      if !clear {
        continue;
      }
      FirstClearDecides(f, onboard, remainingKey, id);
      UnloadedLayoutGood(f, onboard, {id});
      var rest := Without(remaining, id);
      RestOf(remaining, id);
      assert onboard - {id} == whole - (ids - Elements(rest));
      var suffix;
      suffix, failed' := SearchUnload(f, onboard - {id}, rest, failed', context, whole, ids);
      if suffix.Some? {
        LeaveFirst(f, onboard, id, suffix.value);
        return Some([id] + suffix.value), failed';
      }
    }
    if !context.limitReached && CanUnload(f, onboard, remainingKey) {
      forall id | id in remainingKey
        ensures !CanLeave(f, onboard, id)
      {
        assert id in candidates;
      }
      assert remaining[0] in remainingKey;
      NothingClear(f, onboard, remainingKey);
    }
    failed' := failed' + {remainingKey};
    return None, failed';
  }

  /** An executable order for packages delivered at the same stop: within the budget,
      one is returned exactly when one exists. */
  method FindUnloadSequence(f: Floor, current: Layout, unloadIds: seq<ItemId>, context: SearchContext)
    returns (order: Option<seq<ItemId>>)
    requires GoodLayout(f, current) && Elements(unloadIds) <= current.Keys
    requires forall j, k | 0 <= j < k < |unloadIds| :: unloadIds[j] != unloadIds[k]
    requires context.Explained()
    modifies context
    ensures context.Explained() && (TooManyLayouts in context.causes <==> TooManyLayouts in old(context.causes))
    ensures old(context.limitReached) ==> context.limitReached
    ensures order.Some? ==> IsUnloadOrder(f, current, order.value) && Permutation(order.value, unloadIds)
    ensures order.None? && !context.limitReached ==> !CanUnload(f, current, Elements(unloadIds))
  {
    var failed;
    order, failed := SearchUnload(f, current, unloadIds, {}, context, current, Elements(unloadIds));
    if order.Some? {
      UnloadOrderDistinct(f, current, order.value);
      assert forall id :: id in order.value <==> id in Elements(order.value);
      assert forall id :: id in unloadIds <==> id in Elements(unloadIds);
      DistinctPermutation(order.value, unloadIds);
    }
  }
}
