/**
  Sequence helpers used by the pool model: distinctness, the removal of the
  first occurrence of an element (what a deque's `remove` does), and the
  run of consecutive handle numbers a counting factory hands out.
 */
module Seqs {

  /** No element occurs twice in `s`. */
  ghost predicate Distinct<T(!new)>(s: seq<T>) {
    forall x :: multiset(s)[x] <= 1
  }

  /** Removes the first occurrence of `x` from `s`; `s` itself when `x` does not occur. */
  function RemoveFirst<T(==)>(s: seq<T>, x: T): (r: seq<T>)
    ensures x !in s ==> r == s
    ensures x in s ==> |r| == |s| - 1
    ensures multiset(r) == multiset(s) - multiset{x}
  {
    if s == [] then []
    else
      assert s == [s[0]] + s[1..];
      if s[0] == x then s[1..]
      else [s[0]] + RemoveFirst(s[1..], x)
  }

  /** Removing the first occurrence, found at `i`, cuts exactly that position out of the sequence. */
  lemma {:induction false} RemoveFirstCutsFirstOccurrence<T>(s: seq<T>, x: T, i: nat)
    requires i < |s| && s[i] == x && x !in s[..i]
    ensures RemoveFirst(s, x) == s[..i] + s[i + 1..]
  {
    if i > 0 {
      var t := s[1..];
      assert s[0] != x by { assert s[0] in s[..i]; }
      assert t[..i - 1] == s[1..i];
      assert x !in t[..i - 1];
      RemoveFirstCutsFirstOccurrence(t, x, i - 1);
      assert s[..i] == [s[0]] + t[..i - 1];
      assert s[i + 1..] == t[i..];
    }
  }

  /** An element appended to a sequence that did not hold it is the one `RemoveFirst` takes back out. */
  lemma {:induction false} RemoveFirstOfAppended<T>(s: seq<T>, x: T)
    requires x !in s
    ensures RemoveFirst(s + [x], x) == s
  {
    if s != [] {
      assert (s + [x])[1..] == s[1..] + [x];
      RemoveFirstOfAppended(s[1..], x);
      assert s == [s[0]] + s[1..];
    }
  }

  /** The `n` consecutive numbers starting at `lo`, in increasing order. */
  function Range(lo: nat, n: nat): (r: seq<nat>)
    ensures |r| == n
    ensures forall i :: 0 <= i < n ==> r[i] == lo + i
  {
    if n == 0 then [] else Range(lo, n - 1) + [lo + n - 1]
  }

  /** The numbers of a range are pairwise distinct and lie in `[lo, lo + n)`. */
  lemma {:induction false} RangeDistinct(lo: nat, n: nat)
    ensures Distinct(Range(lo, n))
    ensures forall x :: x in Range(lo, n) <==> lo <= x < lo + n
  {
    if n > 0 {
      RangeDistinct(lo, n - 1);
      assert Range(lo, n) == Range(lo, n - 1) + [lo + n - 1];
      assert lo + n - 1 !in Range(lo, n - 1);
    }
  }

  /** A sequence without repetitions has as many elements as the set of its elements. */
  lemma {:induction false} DistinctCardinality<T(!new)>(s: seq<T>)
    requires Distinct(s)
    ensures |set x | x in s| == |s|
  {
    if s != [] {
      var t := s[1..];
      assert s == [s[0]] + t;
      assert multiset(s) == multiset{s[0]} + multiset(t);
      assert Distinct(t) by {
        forall x ensures multiset(t)[x] <= 1 {
          assert multiset(s)[x] <= 1;
        }
      }
      assert s[0] !in t by {
        assert multiset(s)[s[0]] <= 1;
      }
      DistinctCardinality(t);
      assert (set x | x in s) == {s[0]} + (set x | x in t);
    }
  }
}
