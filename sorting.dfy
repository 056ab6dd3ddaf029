/**
 * The in-place sorts of the source: std::sort of the load table by load
 * (3.cpp:138-139) and of the confirmed search offsets (3.cpp:604).
 * std::sort leaves the order of equal keys unspecified; an insertion sort is
 * one admissible outcome.
 */
module Sorting {

  /** Keys ascend along the sequence. */
  ghost predicate SortedBy<T>(s: seq<T>, key: T -> int) {
    forall i, j :: 0 <= i < j < |s| ==> key(s[i]) <= key(s[j])
  }

  method Swap<T>(a: array<T>, i: nat, j: nat)
    requires i < a.Length && j < a.Length
    modifies a
    ensures a[..] == old(a[..])[i := old(a[j])][j := old(a[i])]
    ensures multiset(a[..]) == old(multiset(a[..]))
  {
    a[i], a[j] := a[j], a[i];
  }

  /** Keys ascend along the first n elements. */
  ghost predicate SortedPrefix<T>(s: seq<T>, key: T -> int, n: nat) {
    forall p, q :: 0 <= p < q < n && q < |s| ==> key(s[p]) <= key(s[q])
  }

  /** Elements 0 .. i other than the one at j, which is being moved down, are in key order. */
  ghost predicate SortedBut<T>(s: seq<T>, key: T -> int, i: nat, j: nat) {
    forall p, q :: 0 <= p < q <= i && q < |s| && p != j && q != j ==> key(s[p]) <= key(s[q])
  }

  /** The element at j has a key no larger than those after it up to i. */
  ghost predicate BelowRest<T>(s: seq<T>, key: T -> int, i: nat, j: nat) {
    forall q :: j < q <= i && q < |s| ==> key(s[j]) <= key(s[q])
  }

  /** One swap of the inner loop moves the element one place down and keeps the order of the others. */
  lemma SwapDown<T>(s: seq<T>, key: T -> int, i: nat, j: nat)
    requires 0 < j <= i < |s| && key(s[j - 1]) > key(s[j])
    requires SortedBut(s, key, i, j) && BelowRest(s, key, i, j)
    ensures SortedBut(s[j - 1 := s[j]][j := s[j - 1]], key, i, j - 1)
    ensures BelowRest(s[j - 1 := s[j]][j := s[j - 1]], key, i, j - 1)
  {
  }

  /** The element has reached its place: the first i + 1 elements are in key order. */
  lemma Inserted<T>(s: seq<T>, key: T -> int, i: nat, j: nat)
    requires j <= i < |s| && (j == 0 || key(s[j - 1]) <= key(s[j]))
    requires SortedBut(s, key, i, j) && BelowRest(s, key, i, j)
    ensures SortedPrefix(s, key, i + 1)
  {
    forall p, q | 0 <= p < q < i + 1 ensures key(s[p]) <= key(s[q]) {
      if q == j && p < j - 1 {
        assert key(s[p]) <= key(s[j - 1]);
      }
    }
  }

  /** Sorts `a` in place by ascending key; the result is a permutation of the input. */
  method SortBy<T>(a: array<T>, key: T -> int)
    modifies a
    ensures SortedBy(a[..], key)
    ensures multiset(a[..]) == old(multiset(a[..]))
  {
    if a.Length == 0 { return; }
    var i := 1;
    while i < a.Length
      invariant 1 <= i <= a.Length
      invariant SortedPrefix(a[..], key, i)
      invariant multiset(a[..]) == old(multiset(a[..]))
    {
      var j := i;
      while j > 0 && key(a[j - 1]) > key(a[j])
        invariant 0 <= j <= i
        invariant SortedBut(a[..], key, i, j) && BelowRest(a[..], key, i, j)
        invariant multiset(a[..]) == old(multiset(a[..]))
      {
        SwapDown(a[..], key, i, j);
        Swap(a, j - 1, j);
        j := j - 1;
      }
      Inserted(a[..], key, i, j);
      i := i + 1;
    }
  }
}
