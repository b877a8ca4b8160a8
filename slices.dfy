/**
 * The slice and integer helpers of the `methods` package: membership tests,
 * `MaxOf`, `AbsInt64`, and the order-preserving filters `Difference`,
 * `RemoveValueFromSlice` and `Unique`.
 */
module Slices {
  import opened GoStrconv

  // ---------------------------------------------------------------------------
  // Reference definitions

  /** The elements of `s` that are not in `drop`, in their original order, duplicates kept. */
  function Without<T(==)>(s: seq<T>, drop: set<T>): seq<T>
  {
    if s == [] then []
    else Without(s[..|s| - 1], drop) + (if s[|s| - 1] in drop then [] else [s[|s| - 1]])
  }

  /** `r` can be obtained from `s` by deleting elements. */
  predicate IsSubsequence<T(==)>(r: seq<T>, s: seq<T>)
  {
    if r == [] then true
    else if s == [] then false
    else if r[|r| - 1] == s[|s| - 1] then IsSubsequence(r[..|r| - 1], s[..|s| - 1])
    else IsSubsequence(r, s[..|s| - 1])
  }

  /** The distinct elements of `s`, each where it first occurs. */
  function Dedup(s: seq<int>): seq<int>
  {
    if s == [] then []
    else
      var r := Dedup(s[..|s| - 1]);
      if s[|s| - 1] in r then r else r + [s[|s| - 1]]
  }

  predicate NoDuplicates(s: seq<int>) {
    forall i, j | 0 <= i < j < |s| :: s[i] != s[j]
  }

  /** Position of the first occurrence of `x` in `s`. */
  function FirstIndex(s: seq<int>, x: int): (i: nat)
    requires x in s
    ensures i < |s| && s[i] == x
    ensures forall j | 0 <= j < i :: s[j] != x
  {
    if x in s[..|s| - 1] then FirstIndex(s[..|s| - 1], x) else |s| - 1
  }

  // ---------------------------------------------------------------------------
  // Operations

  /** `InArray` on an int slice: a linear search that stops at the first match. */
  method InArray(needle: int, haystack: seq<int>) returns (found: bool)
    ensures found <==> needle in haystack
  {
    var i := 0;
    while i < |haystack|
      invariant 0 <= i <= |haystack|
      invariant needle !in haystack[..i]
    {
      if haystack[i] == needle {
        return true;
      }
      i := i + 1;
    }
    assert haystack[..i] == haystack;
    return false;
  }

  /** `Contains` on a `[]uint`: a linear search that stops at the first match. */
  method Contains(s: seq<Uint64>, item: Uint64) returns (found: bool)
    ensures found <==> item in s
  {
    for i := 0 to |s|
      invariant item !in s[..i]
    {
      if s[i] == item {
        return true;
      }
    }
    assert s[..|s|] == s;
    return false;
  }

  /**
   * `MaxOf`: the largest argument. Go indexes `vars[0]` first, so a call with
   * no arguments panics; the model makes that a precondition.
   */
  method MaxOf(vars: seq<Int64>) returns (max: Int64)
    requires |vars| > 0
    ensures max in vars
    ensures forall i | 0 <= i < |vars| :: vars[i] <= max
  {
    max := vars[0];
    for i := 0 to |vars|
      invariant max in vars
      invariant forall j | 0 <= j < i :: vars[j] <= max
    {
      if max < vars[i] {
        max := vars[i];
      }
    }
  }

  /**
   * `AbsInt64`: `-x` for negative `x`, in 64-bit two's complement, so the
   * smallest int64 is its own negation and stays negative.
   */
  function AbsInt64(x: Int64): (r: Int64)
    ensures x != MIN_INT64 ==> r >= 0 && (r == x || r == -x)
    ensures x == MIN_INT64 ==> r == x
  {
    if x < 0 then (if x == MIN_INT64 then x else -x) else x
  }

  /** `Difference`: builds the set of `b` in a map, then keeps the elements of `a` outside it. */
  method Difference(a: seq<int>, b: seq<int>) returns (diff: seq<int>)
    ensures diff == Without(a, set x | x in b)
  {
    var m: set<int> := {};
    for i := 0 to |b|
      invariant m == set x | x in b[..i]
    {
      assert b[..i + 1] == b[..i] + [b[i]];
      m := m + {b[i]};
    }
    assert b[..|b|] == b;
    diff := [];
    for i := 0 to |a|
      invariant diff == Without(a[..i], m)
    {
      assert a[..i + 1][..i] == a[..i];
      if a[i] !in m {
        diff := diff + [a[i]];
      }
    }
    assert a[..|a|] == a;
  }

  /** `RemoveValueFromSlice`: keeps every element different from `valueToRemove`. */
  method RemoveValueFromSlice<T(==)>(arr: seq<T>, valueToRemove: T) returns (result: seq<T>)
    ensures result == Without(arr, {valueToRemove})
  {
    result := [];
    for i := 0 to |arr|
      invariant result == Without(arr[..i], {valueToRemove})
    {
      assert arr[..i + 1][..i] == arr[..i];
      if arr[i] != valueToRemove {
        result := result + [arr[i]];
      }
    }
    assert arr[..|arr|] == arr;
  }

  /** `Unique`: appends each value the first time it is seen, remembering seen values in a map. */
  method Unique(arr: seq<int>) returns (unique: seq<int>)
    ensures unique == Dedup(arr)
  {
    var seen: set<int> := {};
    unique := [];
    for i := 0 to |arr|
      invariant unique == Dedup(arr[..i])
      invariant seen == set x | x in unique
    {
      assert arr[..i + 1][..i] == arr[..i];
      if arr[i] !in seen {
        seen := seen + {arr[i]};
        unique := unique + [arr[i]];
      }
    }
    assert arr[..|arr|] == arr;
  }

  // ---------------------------------------------------------------------------
  // Properties of the filters

  /** `Without` keeps exactly the copies of the elements outside `drop`. */
  lemma {:induction false} WithoutCounts<T>(s: seq<T>, drop: set<T>)
    ensures forall x :: multiset(Without(s, drop))[x] == if x in drop then 0 else multiset(s)[x]
  {
    if s != [] {
      WithoutCounts(s[..|s| - 1], drop);
      assert s == s[..|s| - 1] + [s[|s| - 1]];
    }
  }

  /** `Without` keeps the surviving elements in their original order. */
  lemma {:induction false} WithoutIsSubsequence<T>(s: seq<T>, drop: set<T>)
    ensures IsSubsequence(Without(s, drop), s)
  {
    if s != [] {
      var init, last := s[..|s| - 1], s[|s| - 1];
      var r := Without(s, drop);
      WithoutIsSubsequence(init, drop);
      if last !in drop {
        assert r[..|r| - 1] == Without(init, drop);
      } else if r != [] {
        assert r == Without(init, drop);
        WithoutCounts(init, drop);
        assert r[|r| - 1] in multiset(r);
        assert r[|r| - 1] != last;
      }
    }
  }

  /** `Difference(a, b)` holds `x` exactly when `a` does and `b` does not. */
  lemma DifferenceMembers(a: seq<int>, b: seq<int>, x: int)
    ensures x in Without(a, set y | y in b) <==> x in a && x !in b
  {
    WithoutCounts(a, set y | y in b);
    assert x in Without(a, set y | y in b) <==> multiset(Without(a, set y | y in b))[x] > 0;
    assert x in a <==> multiset(a)[x] > 0;
  }

  /** `Dedup` has the same elements as its input. */
  lemma {:induction false} DedupElements(s: seq<int>)
    ensures forall x :: x in Dedup(s) <==> x in s
  {
    if s != [] {
      DedupElements(s[..|s| - 1]);
      assert s == s[..|s| - 1] + [s[|s| - 1]];
    }
  }

  /** `Dedup` holds each value at most once. */
  lemma {:induction false} DedupNoDuplicates(s: seq<int>)
    ensures NoDuplicates(Dedup(s))
  {
    if s != [] {
      DedupNoDuplicates(s[..|s| - 1]);
    }
  }

  /** `Dedup` lists the values of `s` in the order of their first occurrences. */
  lemma {:induction false} DedupFirstOccurrenceOrder(s: seq<int>)
    ensures forall x | x in Dedup(s) :: x in s
    ensures forall i, j | 0 <= i < j < |Dedup(s)| ::
      FirstIndex(s, Dedup(s)[i]) < FirstIndex(s, Dedup(s)[j])
  {
    DedupElements(s);
    if s != [] {
      var init, last := s[..|s| - 1], s[|s| - 1];
      var r := Dedup(init);
      DedupFirstOccurrenceOrder(init);
      DedupElements(init);
      assert s[..|s| - 1] == init;
      forall x | x in init ensures FirstIndex(s, x) == FirstIndex(init, x) { }
      if last !in r {
        assert FirstIndex(s, last) == |s| - 1;
        forall i, j | 0 <= i < j < |Dedup(s)|
          ensures FirstIndex(s, Dedup(s)[i]) < FirstIndex(s, Dedup(s)[j])
        {
          if j < |r| {
            assert Dedup(s)[i] == r[i] && Dedup(s)[j] == r[j];
          } else {
            assert Dedup(s)[i] == r[i];
          }
        }
      }
    }
  }

  /** A sequence without duplicates is its own `Dedup`. */
  lemma {:induction false} DedupOfDistinct(s: seq<int>)
    requires NoDuplicates(s)
    ensures Dedup(s) == s
  {
    if s != [] {
      var init := s[..|s| - 1];
      DedupOfDistinct(init);
      assert s[|s| - 1] !in init;
      assert s == init + [s[|s| - 1]];
    }
  }

  /** `Unique` is idempotent. */
  lemma DedupIdempotent(s: seq<int>)
    ensures Dedup(Dedup(s)) == Dedup(s)
  {
    DedupNoDuplicates(s);
    DedupOfDistinct(Dedup(s));
  }
}
