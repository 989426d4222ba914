/** Permutations of 0..n-1 as index sequences, and rearranging a sequence by one. */
module Permutations {

  /** p maps 0..|p|-1 injectively into 0..|p|-1. */
  ghost predicate IsPermutation(p: seq<int>) {
    && (forall i :: 0 <= i < |p| ==> 0 <= p[i] < |p|)
    && (forall i, j :: 0 <= i < j < |p| ==> p[i] != p[j])
  }

  /** A sequence of distinct values drawn from 0..n-1 has at most n elements. */
  lemma {:induction false} DistinctBound(s: seq<int>, n: nat)
    requires forall i :: 0 <= i < |s| ==> 0 <= s[i] < n
    requires forall i, j :: 0 <= i < j < |s| ==> s[i] != s[j]
    ensures |s| <= n
    decreases |s|
  {
    if |s| > 0 {
      var x := s[|s| - 1];
      var t := seq(|s| - 1, i requires 0 <= i < |s| - 1 => if s[i] < x then s[i] else s[i] - 1);
      forall i, j | 0 <= i < j < |t| ensures t[i] != t[j] {
        assert s[i] != s[j] && s[i] != x && s[j] != x;
      }
      forall i | 0 <= i < |t| ensures 0 <= t[i] < n - 1 {
        assert s[i] != x;
      }
      DistinctBound(t, n - 1);
    }
  }

  /** Every value 0..|p|-1 is hit by a permutation. */
  lemma PermutationIsOnto(p: seq<int>, c: int)
    requires IsPermutation(p) && 0 <= c < |p|
    ensures exists i :: 0 <= i < |p| && p[i] == c
  {
    if forall i :: 0 <= i < |p| ==> p[i] != c {
      var t := seq(|p|, i requires 0 <= i < |p| => if p[i] < c then p[i] else p[i] - 1);
      forall i, j | 0 <= i < j < |t| ensures t[i] != t[j] {
        assert p[i] != p[j];
      }
      DistinctBound(t, |p| - 1);
    }
  }

  /** s rearranged so that position k holds s[q[k]]. */
  function Reindex<T>(s: seq<T>, q: seq<int>): (r: seq<T>)
    requires forall k :: 0 <= k < |q| ==> 0 <= q[k] < |s|
    ensures |r| == |q|
  {
    seq(|q|, k requires 0 <= k < |q| => s[q[k]])
  }

  /** Removing the position that holds the largest value leaves a permutation of one fewer. */
  lemma DropLargest(q: seq<int>, k0: int)
    requires IsPermutation(q) && 0 <= k0 < |q| && q[k0] == |q| - 1
    ensures IsPermutation(q[..k0] + q[k0 + 1..])
  {
    var q' := q[..k0] + q[k0 + 1..];
    forall k | 0 <= k < |q'| ensures 0 <= q'[k] < |q'| {
      if k < k0 { assert q'[k] == q[k]; } else { assert q'[k] == q[k + 1]; }
    }
    forall a, b | 0 <= a < b < |q'| ensures q'[a] != q'[b] {
      var a0 := if a < k0 then a else a + 1;
      var b0 := if b < k0 then b else b + 1;
      assert q'[a] == q[a0] && q'[b] == q[b0] && a0 < b0;
    }
  }

  /** Rearranging the shorter sequence by the shorter permutation gives the rearrangement with
      the largest value's position removed. */
  lemma ReindexDropLargest<T>(s: seq<T>, q: seq<int>, k0: int)
    requires IsPermutation(q) && |q| == |s| && 0 <= k0 < |q| && q[k0] == |q| - 1
    ensures IsPermutation(q[..k0] + q[k0 + 1..])
    ensures Reindex(s[..|s| - 1], q[..k0] + q[k0 + 1..]) == Reindex(s, q)[..k0] + Reindex(s, q)[k0 + 1..]
  {
    DropLargest(q, k0);
    var q' := q[..k0] + q[k0 + 1..];
    var r := Reindex(s, q);
    var rest := r[..k0] + r[k0 + 1..];
    forall k | 0 <= k < |q'| ensures Reindex(s[..|s| - 1], q')[k] == rest[k] {
      if k < k0 { assert q'[k] == q[k]; } else { assert q'[k] == q[k + 1]; }
    }
  }

  lemma MultisetAround<T>(r: seq<T>, k: int)
    requires 0 <= k < |r|
    ensures multiset(r) == multiset(r[..k] + r[k + 1..]) + multiset{r[k]}
  {
    assert r == r[..k] + [r[k]] + r[k + 1..];
  }

  /** Rearranging by a permutation keeps every element and its multiplicity. */
  lemma {:induction false} ReindexMultiset<T>(s: seq<T>, q: seq<int>)
    requires IsPermutation(q) && |q| == |s|
    ensures multiset(Reindex(s, q)) == multiset(s)
    decreases |s|
  {
    if |s| > 0 {
      var m := |s| - 1;
      PermutationIsOnto(q, m);
      var k0 :| 0 <= k0 < |q| && q[k0] == m;
      ReindexDropLargest(s, q, k0);
      ReindexMultiset(s[..m], q[..k0] + q[k0 + 1..]);
      MultisetAround(Reindex(s, q), k0);
      assert s == s[..m] + [s[m]];
    }
  }

  /** The identity with positions i and j exchanged (the identity itself when i == j). */
  function Exchange(n: nat, i: int, j: int): (q: seq<int>)
    requires 0 <= i < n && 0 <= j < n
    ensures |q| == n && IsPermutation(q)
    ensures q[i] == j && q[j] == i
    ensures forall k :: 0 <= k < n && k != i && k != j ==> q[k] == k
  {
    seq(n, k requires 0 <= k < n => if k == i then j else if k == j then i else k)
  }
}
