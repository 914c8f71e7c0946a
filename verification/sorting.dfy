/** Stable sorting by a total preorder. */
module Sorting {
  ghost predicate TotalPreorder<T(!new)>(leq: (T, T) -> bool) {
    && (forall a, b :: leq(a, b) || leq(b, a))
    && (forall a, b, c :: leq(a, b) && leq(b, c) ==> leq(a, c))
  }

  predicate SortedBy<T>(xs: seq<T>, leq: (T, T) -> bool) {
    forall i, j | 0 <= i < j < |xs| :: leq(xs[i], xs[j])
  }

  function InsertBy<T>(x: T, xs: seq<T>, leq: (T, T) -> bool): (r: seq<T>)
    ensures multiset(r) == multiset{x} + multiset(xs)
    ensures |r| == |xs| + 1
  {
    if xs == [] || leq(x, xs[0]) then [x] + xs
    else
      assert xs == [xs[0]] + xs[1..];
      [xs[0]] + InsertBy(x, xs[1..], leq)
  }

  function SortBy<T>(xs: seq<T>, leq: (T, T) -> bool): (r: seq<T>)
    ensures multiset(r) == multiset(xs)
    ensures |r| == |xs|
  {
    if xs == [] then []
    else
      assert xs == [xs[0]] + xs[1..];
      InsertBy(xs[0], SortBy(xs[1..], leq), leq)
  }

  lemma {:induction false} InsertBySorted<T(!new)>(x: T, xs: seq<T>, leq: (T, T) -> bool)
    requires TotalPreorder(leq) && SortedBy(xs, leq)
    ensures SortedBy(InsertBy(x, xs, leq), leq)
  {
    if xs != [] && !leq(x, xs[0]) {
      InsertBySorted(x, xs[1..], leq);
      var rest := InsertBy(x, xs[1..], leq);
      forall j | 0 <= j < |rest|
        ensures leq(xs[0], rest[j])
      {
        assert rest[j] in multiset(rest);
        assert rest[j] == x || rest[j] in xs[1..];
      }
    }
  }

  lemma {:induction false} SortBySorted<T(!new)>(xs: seq<T>, leq: (T, T) -> bool)
    requires TotalPreorder(leq)
    ensures SortedBy(SortBy(xs, leq), leq)
  {
    if xs == [] {
    } else {
      SortBySorted(xs[1..], leq);
      InsertBySorted(xs[0], SortBy(xs[1..], leq), leq);
    }
  }

  lemma SameMembers<T>(a: seq<T>, b: seq<T>)
    requires multiset(a) == multiset(b)
    ensures forall x :: x in a <==> x in b
  {
    forall x ensures x in a <==> x in b {
      assert x in a <==> x in multiset(a);
      assert x in b <==> x in multiset(b);
    }
  }

  function SumBy<T>(xs: seq<T>, value: T -> int): int {
    if xs == [] then 0 else value(xs[0]) + SumBy(xs[1..], value)
  }

  lemma {:induction false} InsertBySum<T>(x: T, xs: seq<T>, leq: (T, T) -> bool, value: T -> int)
    ensures SumBy(InsertBy(x, xs, leq), value) == value(x) + SumBy(xs, value)
  {
    if xs == [] || leq(x, xs[0]) {
      assert ([x] + xs)[1..] == xs;
    } else {
      InsertBySum(x, xs[1..], leq, value);
      var rest := InsertBy(x, xs[1..], leq);
      assert ([xs[0]] + rest)[1..] == rest;
    }
  }

  /** Sorting does not change a sum. */
  lemma {:induction false} SortBySum<T>(xs: seq<T>, leq: (T, T) -> bool, value: T -> int)
    ensures SumBy(SortBy(xs, leq), value) == SumBy(xs, value)
  {
    if xs == [] {
    } else {
      SortBySum(xs[1..], leq, value);
      InsertBySum(xs[0], SortBy(xs[1..], leq), leq, value);
    }
  }

  function RemoveAt<T>(s: seq<T>, j: nat): seq<T>
    requires j < |s|
  {
    s[..j] + s[j + 1..]
  }

  lemma RemoveAtMultiset<T>(s: seq<T>, j: nat)
    requires j < |s|
    ensures multiset(s) == multiset(RemoveAt(s, j)) + multiset{s[j]}
  {
    assert s == s[..j] + [s[j]] + s[j + 1..];
  }

  lemma CancelOne<T>(a: multiset<T>, b: multiset<T>, x: T)
    requires a + multiset{x} == b + multiset{x}
    ensures a == b
  {
    assert a == (a + multiset{x}) - multiset{x} && b == (b + multiset{x}) - multiset{x};
  }

  /** Taking a common element from two arrangements leaves two arrangements. */
  lemma RemoveHeadAndMatch<T>(a: seq<T>, b: seq<T>, j: nat)
    requires multiset(a) == multiset(b) && a != [] && j < |b| && b[j] == a[0]
    ensures multiset(a[1..]) == multiset(RemoveAt(b, j))
  {
    RemoveAtMultiset(b, j);
    assert a == [a[0]] + a[1..];
    CancelOne(multiset(a[1..]), multiset(RemoveAt(b, j)), a[0]);
  }

  /** Two arrangements of the same elements have the same sum. */
  lemma {:induction false} SumByMultiset<T>(a: seq<T>, b: seq<T>, value: T -> int)
    requires multiset(a) == multiset(b)
    ensures SumBy(a, value) == SumBy(b, value)
  {
    if a == [] {
      assert |b| == |multiset(b)|;
    } else {
      assert a[0] in multiset(b);
      var j :| 0 <= j < |b| && b[j] == a[0];
      RemoveHeadAndMatch(a, b, j);
      SumByMultiset(a[1..], RemoveAt(b, j), value);
      SumByRemove(b, j, value);
    }
  }

  lemma {:induction false} SumByRemove<T>(b: seq<T>, j: nat, value: T -> int)
    requires j < |b|
    ensures SumBy(b, value) == value(b[j]) + SumBy(RemoveAt(b, j), value)
  {
    if j == 0 {
      assert RemoveAt(b, 0) == b[1..];
    } else {
      SumByRemove(b[1..], j - 1, value);
      assert RemoveAt(b, j)[1..] == RemoveAt(b[1..], j - 1);
    }
  }

  /** Two lists without repetitions and with the same elements are permutations. */
  lemma {:induction false} DistinctPermutation<T(!new)>(a: seq<T>, b: seq<T>)
    requires forall j, k | 0 <= j < k < |a| :: a[j] != a[k]
    requires forall j, k | 0 <= j < k < |b| :: b[j] != b[k]
    requires forall x :: x in a <==> x in b
    ensures multiset(a) == multiset(b)
  {
    forall x
      ensures multiset(a)[x] == multiset(b)[x]
    {
      CountDistinct(a, x);
      CountDistinct(b, x);
    }
  }

  lemma {:induction false} CountDistinct<T(!new)>(s: seq<T>, x: T)
    requires forall j, k | 0 <= j < k < |s| :: s[j] != s[k]
    ensures multiset(s)[x] == if x in s then 1 else 0
  {
    if s == [] {
    } else {
      CountDistinct(s[1..], x);
      assert s == [s[0]] + s[1..];
      assert forall k | 0 <= k < |s[1..]| :: s[1..][k] != s[0];
    }
  }
}
