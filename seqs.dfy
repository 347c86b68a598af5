/** Facts about sequences without repetitions, used to argue that a tour is a
    permutation of the node indices, and the shape of a square matrix. */
module Seqs {

  /** Every row of `matrix` has as many entries as there are rows. */
  predicate Square<T>(matrix: seq<seq<T>>) {
    forall i :: 0 <= i < |matrix| ==> |matrix[i]| == |matrix|
  }

  /** No element occurs twice in `s`. */
  predicate Distinct<T(==)>(s: seq<T>) {
    forall a, b :: 0 <= a < b < |s| ==> s[a] != s[b]
  }

  /** The node indices 0 .. n-1. */
  function Range(n: nat): (r: set<nat>)
    ensures forall x: nat :: x in r <==> x < n
    ensures |r| == n
  {
    if n == 0 then {} else Range(n - 1) + {n - 1}
  }

  /** The elements of a sequence without repetitions are as many as its length. */
  lemma {:induction false} DistinctElementsSize<T>(s: seq<T>)
    requires Distinct(s)
    ensures |set x | x in s| == |s|
  {
    if |s| > 0 {
      var t := s[..|s| - 1];
      assert Distinct(t);
      DistinctElementsSize(t);
      assert (set x | x in s) == (set x | x in t) + {s[|s| - 1]};
      assert s[|s| - 1] !in (set x | x in t);
    } else {
      assert (set x | x in s) == {};
    }
  }

  /** Pigeonhole: n distinct values below n are all the values below n. */
  lemma DistinctInRangeCovers(s: seq<nat>, n: nat)
    requires Distinct(s) && |s| == n
    requires forall k :: 0 <= k < |s| ==> s[k] < n
    ensures forall x: nat :: x < n ==> x in s
  {
    var elems: set<nat> := set x | x in s;
    DistinctElementsSize(s);
    forall x: nat | x < n ensures x in s {
      if x !in s {
        assert elems <= Range(n) - {x};
        SubsetSize(elems, Range(n) - {x});
        assert false;
      }
    }
  }

  /** Conversely, distinct values below n that cover all of 0 .. n-1 are
      exactly n of them. */
  lemma CoveringDistinctSize(s: seq<nat>, n: nat)
    requires Distinct(s)
    requires forall k :: 0 <= k < |s| ==> s[k] < n
    requires forall x: nat :: x < n ==> x in s
    ensures |s| == n
  {
    var elems: set<nat> := set x | x in s;
    DistinctElementsSize(s);
    assert elems == Range(n) by {
      forall x | x in elems ensures x in Range(n) { var k :| 0 <= k < |s| && s[k] == x; }
      forall x | x in Range(n) ensures x in elems { assert x in s; }
    }
    assert |elems| == |Range(n)|;
  }

  /** Distinct values below n are at most n of them. */
  lemma DistinctBounded(s: seq<nat>, n: nat)
    requires Distinct(s)
    requires forall k :: 0 <= k < |s| ==> s[k] < n
    ensures |s| <= n
  {
    var elems: set<nat> := set x | x in s;
    DistinctElementsSize(s);
    assert elems <= Range(n);
    SubsetSize(elems, Range(n));
  }

  /** Fewer than n distinct values below n leave some value below n out. */
  lemma Unused(s: seq<nat>, n: nat) returns (w: nat)
    requires Distinct(s) && |s| < n
    requires forall k :: 0 <= k < |s| ==> s[k] < n
    ensures w < n && w !in s
  {
    if forall x: nat :: x < n ==> x in s {
      CoveringDistinctSize(s, n);
      assert false;
    }
    w :| w < n && w !in s;
  }

  lemma SubsetSize<T>(a: set<T>, b: set<T>)
    requires a <= b
    ensures |a| <= |b|
  {
    assert b == a + (b - a);
  }
}
