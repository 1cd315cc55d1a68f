/** Sorting by a key order, as ORDER BY and list.sort do. */
module Sorting {

  predicate SortedBy<T>(s: seq<T>, leq: (T, T) -> bool) {
    forall i, j | 0 <= i < j < |s| :: leq(s[i], s[j])
  }

  ghost predicate TotalOn<T(!new)>(leq: (T, T) -> bool) {
    && (forall x, y :: leq(x, y) || leq(y, x))
    && (forall x, y, z :: leq(x, y) && leq(y, z) ==> leq(x, z))
  }

  function Placed<T>(x: T, s: seq<T>, leq: (T, T) -> bool): (r: seq<T>)
    ensures |r| == |s| + 1
  {
    if s == [] || leq(x, s[0]) then [x] + s else [s[0]] + Placed(x, s[1..], leq)
  }

  function Sorted<T>(s: seq<T>, leq: (T, T) -> bool): (r: seq<T>)
    ensures |r| == |s|
  {
    if s == [] then [] else Placed(s[0], Sorted(s[1..], leq), leq)
  }

  lemma {:induction false} PlacedPermutes<T>(x: T, s: seq<T>, leq: (T, T) -> bool)
    ensures multiset(Placed(x, s, leq)) == multiset(s) + multiset{x}
  {
    if s != [] && !leq(x, s[0]) {
      PlacedPermutes(x, s[1..], leq);
      assert s == [s[0]] + s[1..];
    }
  }

  lemma {:induction false} SortedPermutes<T>(s: seq<T>, leq: (T, T) -> bool)
    ensures multiset(Sorted(s, leq)) == multiset(s)
  {
    if s != [] {
      SortedPermutes(s[1..], leq);
      PlacedPermutes(s[0], Sorted(s[1..], leq), leq);
      assert s == [s[0]] + s[1..];
    }
  }

  lemma {:induction false} PlacedSorts<T(!new)>(x: T, s: seq<T>, leq: (T, T) -> bool)
    requires TotalOn(leq) && SortedBy(s, leq)
    ensures SortedBy(Placed(x, s, leq), leq)
  {
    if s != [] && !leq(x, s[0]) {
      PlacedSorts(x, s[1..], leq);
      var rest := Placed(x, s[1..], leq);
      PlacedPermutes(x, s[1..], leq);
      forall j | 0 <= j < |rest| ensures leq(s[0], rest[j]) {
        assert rest[j] in multiset(rest);
        if rest[j] != x { assert rest[j] in s[1..]; }
      }
    }
  }

  lemma {:induction false} SortedSorts<T(!new)>(s: seq<T>, leq: (T, T) -> bool)
    requires TotalOn(leq)
    ensures SortedBy(Sorted(s, leq), leq)
  {
    if s != [] {
      SortedSorts(s[1..], leq);
      PlacedSorts(s[0], Sorted(s[1..], leq), leq);
    }
  }

  /** A permutation of a duplicate-free list has no duplicates and the same members. */
  predicate Distinct<T(==)>(s: seq<T>) { forall i, j | 0 <= i < j < |s| :: s[i] != s[j] }

  lemma {:induction false} DistinctCounts<T>(s: seq<T>)
    requires Distinct(s)
    ensures forall x :: multiset(s)[x] <= 1
  {
    if s != [] {
      DistinctCounts(s[1..]);
      assert s == [s[0]] + s[1..];
      assert s[0] !in s[1..];
    }
  }

  lemma PermutationDistinct<T>(s: seq<T>, t: seq<T>)
    requires Distinct(s) && multiset(s) == multiset(t)
    ensures Distinct(t)
    ensures forall x :: x in s <==> x in t
  {
    DistinctCounts(s);
    forall i, j | 0 <= i < j < |t| ensures t[i] != t[j] {
      if t[i] == t[j] { DuplicateCounts(t, i, j); }
    }
    forall x ensures x in s <==> x in t {
      assert x in s <==> x in multiset(s);
      assert x in t <==> x in multiset(t);
    }
  }

  lemma DuplicateCounts<T>(t: seq<T>, i: nat, j: nat)
    requires i < j < |t| && t[i] == t[j]
    ensures multiset(t)[t[i]] >= 2
  {
    assert t == t[..j] + t[j..];
    assert t[i] in t[..j] && t[j] in t[j..];
    assert t[..j][i] == t[i] && t[j..][0] == t[j];
  }
}
