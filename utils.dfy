/** Small helpers shared by the other modules. */
module Utils {

  datatype Option<T> = None | Some(value: T)

  /** No element occurs twice. */
  predicate Distinct<T(==)>(s: seq<T>) {
    forall i, j :: 0 <= i < j < |s| ==> s[i] != s[j]
  }

  /** Ascending (ties allowed). */
  predicate Sorted(s: seq<int>) {
    forall i, j :: 0 <= i < j < |s| ==> s[i] <= s[j]
  }

  /** Strictly ascending. */
  predicate StrictlyAscending(s: seq<int>) {
    forall i, j :: 0 <= i < j < |s| ==> s[i] < s[j]
  }

  function Min(a: int, b: int): int {
    if a <= b then a else b
  }

  /** A sequence without duplicates has as many elements as the set of its elements. */
  lemma {:induction false} DistinctCardinality<T>(s: seq<T>)
    requires Distinct(s)
    ensures |set x | x in s| == |s|
  {
    if s != [] {
      var t := s[..|s| - 1];
      var last := s[|s| - 1];
      DistinctCardinality(t);
      assert last !in t by {
        forall i | 0 <= i < |t| ensures t[i] != last {
          assert t[i] == s[i];
        }
      }
      assert (set x | x in s) == (set x | x in t) + {last} by {
        assert s == t + [last];
      }
    }
  }

  /** In a sequence without duplicates every value occurs at most once. */
  lemma {:induction false} DistinctMultiplicity<T>(s: seq<T>, x: T)
    requires Distinct(s)
    ensures multiset(s)[x] <= 1
  {
    if s != [] {
      var t := s[..|s| - 1];
      var last := s[|s| - 1];
      assert Distinct(t) by {
        forall i, j | 0 <= i < j < |t| ensures t[i] != t[j] {
          assert t[i] == s[i] && t[j] == s[j];
        }
      }
      DistinctMultiplicity(t, x);
      assert s == t + [last];
      if x == last {
        assert x !in t by {
          forall i | 0 <= i < |t| ensures t[i] != last {
            assert t[i] == s[i];
          }
        }
      }
    }
  }

  /** A value at two indices occurs at least twice. */
  lemma RepeatedMultiplicity<T>(s: seq<T>, i: nat, j: nat)
    requires i < j < |s| && s[i] == s[j]
    ensures multiset(s)[s[i]] >= 2
  {
    var t := s[..j];
    assert s == t + [s[j]] + s[j + 1..];
    assert t[i] == s[i];
    assert multiset(t)[s[i]] >= 1;
  }

  /** A rearrangement of a sequence without duplicates has none either. */
  lemma DistinctPermutation<T>(a: seq<T>, b: seq<T>)
    requires multiset(a) == multiset(b) && Distinct(b)
    ensures Distinct(a)
  {
    forall i, j | 0 <= i < j < |a| ensures a[i] != a[j] {
      if a[i] == a[j] {
        RepeatedMultiplicity(a, i, j);
        DistinctMultiplicity(b, a[i]);
        assert false;
      }
    }
  }
}
