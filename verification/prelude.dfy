/** Shared small notions. */
module Prelude {
  datatype Option<+T> = None | Some(value: T)

  function Min(a: int, b: int): int { if a <= b then a else b }

  function Max(a: int, b: int): int { if a <= b then b else a }

  function Elements<T>(s: seq<T>): set<T> {
    set x | x in s
  }

  predicate Distinct<T(==)>(s: seq<T>) {
    forall j, k | 0 <= j < k < |s| :: s[j] != s[k]
  }

  function Without<T(==,!new)>(s: seq<T>, x: T): (r: seq<T>)
    ensures forall y :: y in r <==> y in s && y != x
    ensures Distinct(s) ==> Distinct(r)
    ensures x !in s ==> r == s
    ensures Distinct(s) && x in s ==> |r| == |s| - 1
  {
    if s == [] then []
    else
      var rest := Without(s[1..], x);
      assert s == [s[0]] + s[1..];
      assert Distinct(s) ==> s[0] !in s[1..];
      if s[0] == x then rest else [s[0]] + rest
  }

  lemma SubsetSize<T>(a: set<T>, b: set<T>)
    requires a <= b
    ensures |a| <= |b|
  {
    assert b == a + (b - a);
  }

  lemma {:induction false} DistinctSize<T>(s: seq<T>)
    requires Distinct(s)
    ensures |Elements(s)| == |s|
  {
    if s == [] {
    } else {
      assert s == [s[0]] + s[1..];
      assert s[0] !in s[1..];
      assert Elements(s) == {s[0]} + Elements(s[1..]);
      DistinctSize(s[1..]);
    }
  }

  /** The first `n` indices. */
  ghost function FirstIndices(n: nat): (s: set<nat>)
    ensures forall v: nat :: v in s <==> v < n
    ensures |s| == n
  {
    if n == 0 then {} else FirstIndices(n - 1) + {n - 1}
  }

  /** A product by name, to keep it out of the solver's arithmetic. */
  ghost function Times(k: nat, t: nat): nat {
    k * t
  }

  lemma TimesZero(t: nat)
    ensures Times(0, t) == 0
  {
  }

  lemma TimesNext(k: nat, t: nat)
    ensures Times(k + 1, t) == Times(k, t) + t
  {
  }

  lemma TimesGrows(k: nat, m: nat, t: nat, u: nat)
    requires k <= m && t <= u
    ensures Times(k, t) <= Times(m, u)
  {
    assert k * t <= m * t <= m * u;
  }
}
