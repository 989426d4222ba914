/** Cycle decomposition of a permutation of 0..n-1, and the minimum-move count the
    puzzle shows after a shuffle: n minus the number of cycles of i |-> p[i]. */
module Cycles {
  import opened GameModels
  import opened Permutations

  /** p applied k times to j. */
  ghost function Iter(p: seq<int>, j: int, k: nat): (r: int)
    requires IsPermutation(p) && 0 <= j < |p|
    ensures 0 <= r < |p|
    decreases k
  {
    if k == 0 then j else p[Iter(p, j, k - 1)]
  }

  lemma {:induction false} IterAdd(p: seq<int>, j: int, a: nat, b: nat)
    requires IsPermutation(p) && 0 <= j < |p|
    ensures Iter(p, j, a + b) == Iter(p, Iter(p, j, a), b)
    decreases b
  {
    if b > 0 {
      IterAdd(p, j, a, b - 1);
    }
  }

  lemma IterShift(p: seq<int>, j: int, k: nat)
    requires IsPermutation(p) && 0 <= j < |p|
    ensures Iter(p, p[j], k) == Iter(p, j, k + 1)
  {
    IterAdd(p, j, 1, k);
  }

  /** Injectivity of p carries over to its iterates. */
  lemma {:induction false} IterCancel(p: seq<int>, j: int, a: nat, b: nat)
    requires IsPermutation(p) && 0 <= j < |p|
    requires a <= b && Iter(p, j, a) == Iter(p, j, b)
    ensures Iter(p, j, b - a) == j
    decreases a
  {
    if a > 0 {
      var x, y := Iter(p, j, a - 1), Iter(p, j, b - 1);
      assert p[x] == p[y];
      IterCancel(p, j, a - 1, b - 1);
    }
  }

  /** Every element comes back to itself within |p| steps. */
  lemma ReturnExists(p: seq<int>, j: int)
    requires IsPermutation(p) && 0 <= j < |p|
    ensures exists R :: 1 <= R <= |p| && Iter(p, j, R) == j
  {
    var s := seq(|p| + 1, k requires 0 <= k <= |p| => Iter(p, j, k));
    if forall a, b :: 0 <= a < b < |s| ==> s[a] != s[b] {
      DistinctBound(s, |p|);
    }
    var a, b :| 0 <= a < b < |s| && s[a] == s[b];
    IterCancel(p, j, a, b);
    assert Iter(p, j, b - a) == j;
  }

  /** The least t >= s at which j comes back, given that it comes back at R >= s. */
  ghost function FirstReturn(p: seq<int>, j: int, s: nat, R: nat): (L: nat)
    requires IsPermutation(p) && 0 <= j < |p|
    requires s <= R && Iter(p, j, R) == j
    ensures s <= L <= R && Iter(p, j, L) == j
    ensures forall t :: s <= t < L ==> Iter(p, j, t) != j
    decreases R - s
  {
    if Iter(p, j, s) == j then s else FirstReturn(p, j, s + 1, R)
  }

  /** The length of the cycle through j. */
  ghost function Period(p: seq<int>, j: int): (L: nat)
    requires IsPermutation(p) && 0 <= j < |p|
    ensures 1 <= L <= |p| && Iter(p, j, L) == j
    ensures forall t :: 1 <= t < L ==> Iter(p, j, t) != j
  {
    ReturnExists(p, j);
    var R :| 1 <= R <= |p| && Iter(p, j, R) == j;
    FirstReturn(p, j, 1, R)
  }

  /** k reduced below a positive period L by repeated subtraction. */
  function Reduce(k: nat, L: nat): (r: nat)
    requires L >= 1
    ensures r < L
    decreases k
  {
    if k < L then k else Reduce(k - L, L)
  }

  lemma {:induction false} IterReduce(p: seq<int>, j: int, L: nat, k: nat)
    requires IsPermutation(p) && 0 <= j < |p|
    requires L >= 1 && Iter(p, j, L) == j
    ensures Iter(p, j, k) == Iter(p, j, Reduce(k, L))
    decreases k
  {
    if k >= L {
      IterAdd(p, j, L, k - L);
      IterReduce(p, j, L, k - L);
    }
  }

  /** The iterates of j within one period are pairwise distinct. */
  lemma IterDistinct(p: seq<int>, j: int, a: nat, b: nat)
    requires IsPermutation(p) && 0 <= j < |p|
    requires a < b < Period(p, j)
    ensures Iter(p, j, a) != Iter(p, j, b)
  {
    if Iter(p, j, a) == Iter(p, j, b) {
      IterCancel(p, j, a, b);
    }
  }

  /** Index k < m at which the iterates of j are least. */
  ghost function ArgMinIter(p: seq<int>, j: int, m: nat): (a: nat)
    requires IsPermutation(p) && 0 <= j < |p| && 1 <= m
    ensures a < m
    ensures forall k :: 0 <= k < m ==> Iter(p, j, a) <= Iter(p, j, k)
    decreases m
  {
    if m == 1 then 0
    else
      var a := ArgMinIter(p, j, m - 1);
      if Iter(p, j, m - 1) < Iter(p, j, a) then m - 1 else a
  }

  /** The least element of the cycle through j. */
  ghost function Rep(p: seq<int>, j: int): int
    requires IsPermutation(p) && 0 <= j < |p|
  {
    Iter(p, j, ArgMinIter(p, j, |p|))
  }

  lemma RepIsLowest(p: seq<int>, j: int, k: nat)
    requires IsPermutation(p) && 0 <= j < |p|
    ensures 0 <= Rep(p, j) <= Iter(p, j, k)
  {
    IterReduce(p, j, Period(p, j), k);
  }

  lemma RepStepLower(p: seq<int>, j: int)
    requires IsPermutation(p) && 0 <= j < |p|
    ensures Rep(p, j) <= Rep(p, p[j])
  {
    var a := ArgMinIter(p, p[j], |p|);
    IterShift(p, j, a);
    RepIsLowest(p, j, a + 1);
  }

  lemma RepStepUpper(p: seq<int>, j: int)
    requires IsPermutation(p) && 0 <= j < |p|
    ensures Rep(p, p[j]) <= Rep(p, j)
  {
    var a := ArgMinIter(p, j, |p|);
    var L := Period(p, j);
    assert Iter(p, j, L + a) == Rep(p, j) by {
      IterAdd(p, j, L, a);
    }
    assert Iter(p, p[j], L + a - 1) == Iter(p, j, L + a) by {
      IterShift(p, j, L + a - 1);
    }
    RepIsLowest(p, p[j], L + a - 1);
  }

  /** Stepping along a cycle does not change its least element. */
  lemma RepStep(p: seq<int>, j: int)
    requires IsPermutation(p) && 0 <= j < |p|
    ensures Rep(p, p[j]) == Rep(p, j)
  {
    RepStepLower(p, j);
    RepStepUpper(p, j);
  }

  lemma {:induction false} RepIter(p: seq<int>, j: int, k: nat)
    requires IsPermutation(p) && 0 <= j < |p|
    ensures Rep(p, Iter(p, j, k)) == Rep(p, j)
    decreases k
  {
    if k > 0 {
      RepIter(p, j, k - 1);
      RepStep(p, Iter(p, j, k - 1));
    }
  }

  /** Steps that lead from the a-th iterate of j back to j. */
  ghost function BackSteps(p: seq<int>, j: int, a: nat): (m: nat)
    requires IsPermutation(p) && 0 <= j < |p|
    ensures Iter(p, Iter(p, j, a), m) == j
    decreases a
  {
    if a == 0 then 0
    else
      var x := Iter(p, j, a - 1);
      var m0 := BackSteps(p, j, a - 1);
      var L := Period(p, x);
      IterShift(p, x, L - 1);
      IterAdd(p, p[x], L - 1, m0);
      L - 1 + m0
  }

  /** Iterates of j traced for t steps. */
  ghost function Trace(p: seq<int>, j: int, t: nat): set<int>
    requires IsPermutation(p) && 0 <= j < |p|
    decreases t
  {
    if t == 0 then {} else Trace(p, j, t - 1) + {Iter(p, j, t - 1)}
  }

  /** Every iterate taken before step t is in the trace. */
  lemma {:induction false} TraceHas(p: seq<int>, j: int, t: nat, s: nat)
    requires IsPermutation(p) && 0 <= j < |p| && s < t
    ensures Iter(p, j, s) in Trace(p, j, t)
    decreases t
  {
    assert Trace(p, j, t) == Trace(p, j, t - 1) + {Iter(p, j, t - 1)};
    if s < t - 1 {
      TraceHas(p, j, t - 1, s);
    }
  }

  /** Everything in the trace is an iterate taken before step t. */
  lemma {:induction false} TraceWitness(p: seq<int>, j: int, t: nat, x: int)
    requires IsPermutation(p) && 0 <= j < |p| && x in Trace(p, j, t)
    ensures exists s :: 0 <= s < t && Iter(p, j, s) == x
    decreases t
  {
    assert Trace(p, j, t) == Trace(p, j, t - 1) + {Iter(p, j, t - 1)};
    if x == Iter(p, j, t - 1) {
      assert 0 <= t - 1 < t;
    } else {
      TraceWitness(p, j, t - 1, x);
      var s :| 0 <= s < t - 1 && Iter(p, j, s) == x;
      assert 0 <= s < t;
    }
  }

  lemma TraceMembers(p: seq<int>, j: int, t: nat, x: int)
    requires IsPermutation(p) && 0 <= j < |p|
    ensures x in Trace(p, j, t) <==> exists s :: 0 <= s < t && Iter(p, j, s) == x
  {
    if x in Trace(p, j, t) {
      TraceWitness(p, j, t, x);
    }
    if exists s :: 0 <= s < t && Iter(p, j, s) == x {
      var s :| 0 <= s < t && Iter(p, j, s) == x;
      TraceHas(p, j, t, s);
    }
  }

  /** A full trace from a leader i covers exactly the elements whose least cycle member is i. */
  lemma LeaderCycle(p: seq<int>, i: int, x: int)
    requires IsPermutation(p) && 0 <= i < |p| && Rep(p, i) == i && 0 <= x < |p|
    ensures x in Trace(p, i, Period(p, i)) <==> Rep(p, x) == i
  {
    var L := Period(p, i);
    TraceMembers(p, i, L, x);
    if x in Trace(p, i, L) {
      var s :| 0 <= s < L && Iter(p, i, s) == x;
      RepIter(p, i, s);
    }
    if Rep(p, x) == i {
      var a := ArgMinIter(p, x, |p|);
      var m := BackSteps(p, x, a);
      IterReduce(p, i, L, m);
    }
  }

  lemma RepIdempotent(p: seq<int>, j: int)
    requires IsPermutation(p) && 0 <= j < |p|
    ensures 0 <= Rep(p, j) < |p| && Rep(p, Rep(p, j)) == Rep(p, j)
  {
    RepIter(p, j, ArgMinIter(p, j, |p|));
  }

  /** Within the first period, the t-th iterate has not been traced yet. */
  lemma NotYetTraced(p: seq<int>, i: int, t: nat)
    requires IsPermutation(p) && 0 <= i < |p| && t < Period(p, i)
    ensures Iter(p, i, t) !in Trace(p, i, t)
  {
    TraceMembers(p, i, t, Iter(p, i, t));
    forall s | 0 <= s < t ensures Iter(p, i, s) != Iter(p, i, t) {
      IterDistinct(p, i, s, t);
    }
  }

  /** Number of leaders below m. */
  ghost function CountLeaders(p: seq<int>, m: nat): nat
    requires IsPermutation(p) && m <= |p|
  {
    if m == 0 then 0
    else CountLeaders(p, m - 1) + (if Rep(p, m - 1) == m - 1 then 1 else 0)
  }

  /** The number of cycles of p: each cycle is counted at its least element. */
  ghost function CycleCount(p: seq<int>): nat
    requires IsPermutation(p)
  {
    CountLeaders(p, |p|)
  }

  lemma {:induction false} CountLeadersBound(p: seq<int>, m: nat)
    requires IsPermutation(p) && m <= |p|
    ensures CountLeaders(p, m) <= m
    ensures CountLeaders(p, m) == m <==> forall k :: 0 <= k < m ==> Rep(p, k) == k
  {
    if m > 0 {
      CountLeadersBound(p, m - 1);
    }
  }

  /** The least element of a fixed point's cycle is itself. */
  lemma FixedPointRep(p: seq<int>, k: int)
    requires IsPermutation(p) && 0 <= k < |p| && p[k] == k
    ensures Rep(p, k) == k
  {
    assert Iter(p, k, 1) == k;
    IterReduce(p, k, 1, ArgMinIter(p, k, |p|));
  }

  /** Position 0 always starts a cycle, so a non-empty permutation has at least one. */
  lemma {:induction false} CycleCountPositive(p: seq<int>, m: nat)
    requires IsPermutation(p) && 1 <= m <= |p|
    ensures 1 <= CountLeaders(p, m)
    decreases m
  {
    if m == 1 {
      RepIsLowest(p, 0, 0);
    } else {
      CycleCountPositive(p, m - 1);
    }
  }

  /** The minimum-move count lies between 0 and n - 1. */
  lemma MinMovesRange(p: seq<int>)
    requires IsPermutation(p)
    ensures 0 <= |p| - CycleCount(p)
    ensures |p| > 0 ==> |p| - CycleCount(p) <= |p| - 1
  {
    CountLeadersBound(p, |p|);
    if |p| > 0 {
      CycleCountPositive(p, |p|);
    }
  }

  /** No move is needed exactly when every position already holds its own element. */
  lemma SolvedIffNoMoves(p: seq<int>)
    requires IsPermutation(p)
    ensures (forall i :: 0 <= i < |p| ==> p[i] == i) <==> |p| - CycleCount(p) == 0
  {
    CountLeadersBound(p, |p|);
    if forall i :: 0 <= i < |p| ==> p[i] == i {
      forall k | 0 <= k < |p| ensures Rep(p, k) == k {
        FixedPointRep(p, k);
      }
    }
    if |p| - CycleCount(p) == 0 {
      forall i | 0 <= i < |p| ensures p[i] == i {
        RepStep(p, i);
      }
    }
  }

  /** The identity on 0..n-1 with positions a and b exchanged. */
  predicate IsTransposition(p: seq<int>, a: int, b: int) {
    && 0 <= a < |p| && 0 <= b < |p| && a != b
    && forall k :: 0 <= k < |p| ==> p[k] == (if k == a then b else if k == b then a else k)
  }

  /** A single exchange away from solved needs exactly one move. */
  lemma TranspositionNeedsOneMove(p: seq<int>, a: int, b: int)
    requires IsTransposition(p, a, b)
    ensures IsPermutation(p) && |p| - CycleCount(p) == 1
  {
    var lo, hi := if a < b then a else b, if a < b then b else a;
    assert IsPermutation(p);
    RepIsLowest(p, hi, 1);
    assert Rep(p, hi) <= lo < hi;
    RepStep(p, lo);
    assert Rep(p, lo) == lo by {
      RepIsLowest(p, lo, 0);
      var k := ArgMinIter(p, lo, |p|);
      IterReduce(p, lo, 2, k);
      assert Iter(p, lo, 2) == lo;
      assert Iter(p, lo, Reduce(k, 2)) in {lo, hi};
    }
    forall k | 0 <= k < |p| && k != lo && k != hi ensures Rep(p, k) == k {
      FixedPointRep(p, k);
    }
    LeadersExceptOne(p, hi, |p|);
  }

  /** Which positions lead their cycle. */
  ghost function LeaderMarks(p: seq<int>): (b: seq<bool>)
    requires IsPermutation(p)
    ensures |b| == |p| && forall k :: 0 <= k < |p| ==> (b[k] <==> Rep(p, k) == k)
  {
    seq(|p|, k requires 0 <= k < |p| => Rep(p, k) == k)
  }

  /** Number of marks set below m. */
  function CountTrue(b: seq<bool>, m: nat): nat
    requires m <= |b|
  {
    if m == 0 then 0 else CountTrue(b, m - 1) + (if b[m - 1] then 1 else 0)
  }

  /** Counting leaders is counting the leader marks. */
  lemma {:induction false} CountLeadersMarks(p: seq<int>, m: nat)
    requires IsPermutation(p) && m <= |p|
    ensures CountLeaders(p, m) == CountTrue(LeaderMarks(p), m)
  {
    if m > 0 {
      CountLeadersMarks(p, m - 1);
    }
  }

  /** When every mark but the one at h is set, the count misses exactly one once past h. */
  lemma {:induction false} CountTrueExceptOne(b: seq<bool>, h: int, m: nat)
    requires 0 <= h < |b| && m <= |b| && !b[h]
    requires forall k :: 0 <= k < |b| && k != h ==> b[k]
    ensures CountTrue(b, m) == if h < m then m - 1 else m
  {
    if m > 0 {
      CountTrueExceptOne(b, h, m - 1);
    }
  }

  /** If every position but h starts a cycle, and h does not, the count misses exactly one. */
  lemma LeadersExceptOne(p: seq<int>, h: int, m: nat)
    requires IsPermutation(p) && 0 <= h < |p| && m <= |p|
    requires Rep(p, h) != h
    requires forall k :: 0 <= k < |p| && k != h ==> Rep(p, k) == k
    ensures CountLeaders(p, m) == if h < m then m - 1 else m
  {
    CountLeadersMarks(p, m);
    CountTrueExceptOne(LeaderMarks(p), h, m);
  }

  /** The permutation a tile list encodes: position i holds the tile that belongs at correctId. */
  function CorrectIds(tiles: seq<Tile>): seq<int> {
    seq(|tiles|, i requires 0 <= i < |tiles| => tiles[i].correctId)
  }

  /** v marks exactly the elements whose cycle starts below i, plus those in extra. */
  ghost predicate MarkedBelow(p: seq<int>, v: seq<bool>, i: int, extra: set<int>)
    requires IsPermutation(p)
  {
    |v| == |p| && forall j :: 0 <= j < |p| ==> (v[j] <==> Settled(p, j, i, extra))
  }

  /** Element j belongs to a cycle started below i, or to the partial trace extra. */
  ghost predicate Settled(p: seq<int>, j: int, i: int, extra: set<int>)
    requires IsPermutation(p) && 0 <= j < |p|
  {
    Rep(p, j) < i || j in extra
  }

  /** An element already marked when the scan reaches it does not start a new cycle. */
  lemma SkipMarked(p: seq<int>, v: seq<bool>, i: int)
    requires IsPermutation(p) && 0 <= i < |p|
    requires MarkedBelow(p, v, i, {}) && v[i]
    ensures MarkedBelow(p, v, i + 1, {}) && Rep(p, i) != i
    ensures CountLeaders(p, i + 1) == CountLeaders(p, i)
  {
    forall j | 0 <= j < |p| ensures Rep(p, j) != i {
      RepIdempotent(p, j);
    }
  }

  /** An element not yet marked when the scan reaches it is the least of its cycle. */
  lemma UnmarkedIsLeader(p: seq<int>, v: seq<bool>, i: int)
    requires IsPermutation(p) && 0 <= i < |p|
    requires MarkedBelow(p, v, i, {}) && !v[i]
    ensures Rep(p, i) == i && CountLeaders(p, i + 1) == CountLeaders(p, i) + 1
  {
    RepIsLowest(p, i, 0);
  }

  /** A fixed point is a cycle of its own. */
  lemma FixedPointCycle(p: seq<int>, v: seq<bool>, i: int)
    requires IsPermutation(p) && 0 <= i < |p| && p[i] == i
    requires MarkedBelow(p, v, i, {}) && !v[i]
    ensures MarkedBelow(p, v[i := true], i + 1, {})
  {
    UnmarkedIsLeader(p, v, i);
    assert Iter(p, i, 1) == i;
    assert Period(p, i) == 1;
    assert Trace(p, i, 0) == {};
    MarkStep(p, v, i, 0);
    CloseCycle(p, v[i := true], i);
  }

  /** Marking the traced cycle of leader i closes it. */
  lemma CloseCycle(p: seq<int>, v: seq<bool>, i: int)
    requires IsPermutation(p) && 0 <= i < |p| && Rep(p, i) == i
    requires MarkedBelow(p, v, i, Trace(p, i, Period(p, i)))
    ensures MarkedBelow(p, v, i + 1, {})
  {
    forall x | 0 <= x < |p| ensures x in Trace(p, i, Period(p, i)) <==> Rep(p, x) == i {
      LeaderCycle(p, i, x);
    }
  }

  /** Marking the next traced element extends the trace by one step. */
  lemma MarkStep(p: seq<int>, v: seq<bool>, i: int, t: nat)
    requires IsPermutation(p) && 0 <= i < |p| && Rep(p, i) == i
    requires t < Period(p, i) && MarkedBelow(p, v, i, Trace(p, i, t))
    ensures MarkedBelow(p, v[Iter(p, i, t) := true], i, Trace(p, i, t + 1))
    ensures t + 1 < Period(p, i) ==> !v[Iter(p, i, t) := true][Iter(p, i, t + 1)]
  {
    assert Trace(p, i, t + 1) == Trace(p, i, t) + {Iter(p, i, t)};
    if t + 1 < Period(p, i) {
      RepIter(p, i, t + 1);
      NotYetTraced(p, i, t + 1);
    }
  }

  /** Before the walk, no element of the cycle of an unmarked leader i is marked. */
  lemma CycleUnmarked(p: seq<int>, v: seq<bool>, i: int)
    requires IsPermutation(p) && 0 <= i < |p| && Rep(p, i) == i && MarkedBelow(p, v, i, {})
    ensures forall k :: 0 <= k < Period(p, i) ==> !v[Iter(p, i, k)]
  {
    forall k | 0 <= k < Period(p, i) ensures !v[Iter(p, i, k)] {
      RepIter(p, i, k);
      assert Settled(p, Iter(p, i, k), i, {}) <==> false;
    }
  }

  /** Once the walk has traced the whole cycle of leader i, everything whose cycle starts at or
      below i is marked. */
  lemma WalkDone(p: seq<int>, v0: seq<bool>, v: seq<bool>, i: int)
    requires IsPermutation(p) && 0 <= i < |p| && Rep(p, i) == i
    requires MarkedBelow(p, v0, i, {}) && |v| == |p|
    requires forall j :: 0 <= j < |p| ==> (v[j] <==> v0[j] || j in Trace(p, i, Period(p, i)))
    ensures MarkedBelow(p, v, i + 1, {})
  {
    assert MarkedBelow(p, v, i, Trace(p, i, Period(p, i)));
    CloseCycle(p, v, i);
  }

  /** The inner walk of the cycle count: from i, follows each tile to its home and marks it,
      until it reaches a marked element. When the cycle through i starts unmarked, the walk marks
      exactly that cycle. */
  method MarkCycle(tiles: seq<Tile>, visited: array<bool>, i: int)
    requires IsPermutation(CorrectIds(tiles)) && visited.Length == |tiles| && 0 <= i < |tiles|
    requires forall k :: 0 <= k < Period(CorrectIds(tiles), i) ==> !visited[Iter(CorrectIds(tiles), i, k)]
    modifies visited
    ensures forall j :: 0 <= j < |tiles| ==>
      (visited[j] <==> old(visited[j]) || j in Trace(CorrectIds(tiles), i, Period(CorrectIds(tiles), i)))
  {
    ghost var p := CorrectIds(tiles);
    ghost var v0 := visited[..];
    var current := i;
    ghost var L := Period(p, i);
    ghost var t := 0;
    assert Iter(p, i, L) == i;
    while !visited[current]
      invariant 0 <= t <= L && current == Iter(p, i, t)
      invariant forall j :: 0 <= j < |p| ==> (visited[j] <==> v0[j] || j in Trace(p, i, t))
      invariant t < L ==> !visited[current]
      invariant t == L ==> visited[current]
      invariant 0 < t ==> i in Trace(p, i, t)
      decreases L - t
    {
      ghost var traced := Trace(p, i, t);
      assert Trace(p, i, t + 1) == traced + {current};
      assert Iter(p, i, t + 1) == p[current] == tiles[current].correctId;
      visited[current] := true;
      assert forall j :: 0 <= j < |p| ==> (visited[j] <==> v0[j] || j in traced + {current});
      current := tiles[current].correctId;
      t := t + 1;
      if t < L {
        NotYetTraced(p, i, t);
        assert !v0[Iter(p, i, t)];
      }
    }
  }

  /** Minimum number of swaps shown to the player: n minus the number of cycles, traced with a
      visited array and a special case for tiles already in place. */
  method CalculateMinMoves(tiles: seq<Tile>) returns (minMoves: int)
    requires IsPermutation(CorrectIds(tiles))
    ensures minMoves == |tiles| - CycleCount(CorrectIds(tiles))
  {
    ghost var p := CorrectIds(tiles);
    var n := |tiles|;
    var visited := new bool[n](_ => false);
    var cycles := 0;
    for i := 0 to n
      invariant visited.Length == n
      invariant MarkedBelow(p, visited[..], i, {})
      invariant cycles == CountLeaders(p, i)
    {
      if visited[i] {
        SkipMarked(p, visited[..], i);
      } else {
        UnmarkedIsLeader(p, visited[..], i);
        if tiles[i].correctId == i {
          ghost var before := visited[..];
          FixedPointCycle(p, before, i);
          visited[i] := true;
          assert visited[..] == before[i := true];
        } else {
          ghost var before := visited[..];
          CycleUnmarked(p, before, i);
          MarkCycle(tiles, visited, i);
          WalkDone(p, before, visited[..], i);
        }
        cycles := cycles + 1;
      }
    }
    minMoves := n - cycles;
  }
}
