/** Rebuilding the grid after the movable tiles have been shuffled: fixed tiles go back to their
    home cells, and the shuffled movable tiles fill the remaining cells in row-major order. */
module Shuffle {
  import opened GameModels
  import opened Permutations
  import opened Cycles
  import opened Board

  /** The tiles whose isFixed flag equals fixed, in list order (Kotlin's filter). */
  function Keep(tiles: seq<Tile>, fixed: bool): (r: seq<Tile>)
    ensures |r| <= |tiles|
    ensures forall k :: 0 <= k < |r| ==> r[k].isFixed == fixed
  {
    if |tiles| == 0 then []
    else
      var last := tiles[|tiles| - 1];
      Keep(tiles[..|tiles| - 1], fixed) + (if last.isFixed == fixed then [last] else [])
  }

  /** The position in tiles of the k-th kept tile. */
  ghost function KeepIndex(tiles: seq<Tile>, fixed: bool, k: int): (i: int)
    requires 0 <= k < |Keep(tiles, fixed)|
    ensures 0 <= i < |tiles| && tiles[i] == Keep(tiles, fixed)[k]
    decreases |tiles|
  {
    var front := tiles[..|tiles| - 1];
    if k < |Keep(front, fixed)| then KeepIndex(front, fixed, k) else |tiles| - 1
  }

  /** The position among the kept tiles of tiles[i], which is kept. */
  ghost function KeepPos(tiles: seq<Tile>, fixed: bool, i: int): (k: int)
    requires 0 <= i < |tiles| && tiles[i].isFixed == fixed
    ensures 0 <= k < |Keep(tiles, fixed)| && Keep(tiles, fixed)[k] == tiles[i]
    decreases |tiles|
  {
    var front := tiles[..|tiles| - 1];
    if i == |tiles| - 1 then |Keep(front, fixed)| else KeepPos(front, fixed, i)
  }

  /** What a cell holds after the fixed tiles fs were written in order: the last one whose home
      is k, if any. */
  function Placed(fs: seq<Tile>, k: int): (o: Option<Tile>)
    ensures o.Some? ==> o.value in fs && o.value.correctId == k
    ensures o.None? <==> forall i :: 0 <= i < |fs| ==> fs[i].correctId != k
  {
    if |fs| == 0 then None
    else if fs[|fs| - 1].correctId == k then Some(fs[|fs| - 1])
    else
      var o := Placed(fs[..|fs| - 1], k);
      assert forall i :: 0 <= i < |fs| - 1 ==> fs[i] == fs[..|fs| - 1][i];
      o
  }

  /** The n cells after the fixed tiles fs were written. */
  function PlacedGrid(fs: seq<Tile>, n: nat): (g: seq<Option<Tile>>)
    ensures |g| == n && forall k :: 0 <= k < n ==> g[k] == Placed(fs, k)
  {
    seq(n, k requires 0 <= k < n => Placed(fs, k))
  }

  /** Writing one more fixed tile changes only its home cell. */
  lemma PlacedStep(fs: seq<Tile>, t: Tile, n: nat)
    requires 0 <= t.correctId < n
    ensures PlacedGrid(fs + [t], n) == PlacedGrid(fs, n)[t.correctId := Some(t)]
  {
    assert (fs + [t])[..|fs|] == fs;
  }

  /** Number of empty cells among the first i. */
  function Holes(g: seq<Option<Tile>>, i: nat): (h: nat)
    requires i <= |g|
    ensures h <= i
  {
    if i == 0 then 0 else Holes(g, i - 1) + (if g[i - 1].None? then 1 else 0)
  }

  lemma {:induction false} HolesMonotone(g: seq<Option<Tile>>, i: nat, j: nat)
    requires i <= j <= |g|
    ensures Holes(g, i) <= Holes(g, j)
    decreases j
  {
    if i < j {
      HolesMonotone(g, i, j - 1);
    }
  }

  /** Cell i after the fill: a fixed tile stays; an empty cell takes the next shuffled movable
      tile, which records its new position. */
  function FillAt(g: seq<Option<Tile>>, mov: seq<Tile>, i: int): (o: Option<Tile>)
    requires Holes(g, |g|) <= |mov| && 0 <= i < |g|
    ensures o.Some?
  {
    if g[i].Some? then g[i]
    else
      HolesMonotone(g, i + 1, |g|);
      Some(mov[Holes(g, i)].(currentIdx := i))
  }

  function Filled(g: seq<Option<Tile>>, mov: seq<Tile>): (r: seq<Option<Tile>>)
    requires Holes(g, |g|) <= |mov|
    ensures |r| == |g| && forall i :: 0 <= i < |g| ==> r[i] == FillAt(g, mov, i)
  {
    seq(|g|, i requires 0 <= i < |g| => FillAt(g, mov, i))
  }

  /** The cells while the fill has reached position i. */
  function FilledBelow(g: seq<Option<Tile>>, mov: seq<Tile>, i: int): (r: seq<Option<Tile>>)
    requires Holes(g, |g|) <= |mov|
    ensures |r| == |g|
  {
    seq(|g|, k requires 0 <= k < |g| => if k < i then FillAt(g, mov, k) else g[k])
  }

  /** One step of the fill settles cell i. */
  lemma FillStep(g: seq<Option<Tile>>, mov: seq<Tile>, i: int)
    requires Holes(g, |g|) <= |mov| && 0 <= i < |g|
    ensures FilledBelow(g, mov, i + 1) == FilledBelow(g, mov, i)[i := FillAt(g, mov, i)]
    ensures FilledBelow(g, mov, i)[i] == g[i]
  {
  }

  /** Kotlin's filterNotNull. */
  function FilterNotNull(g: seq<Option<Tile>>): (r: seq<Tile>)
    ensures |r| <= |g|
    ensures (forall i :: 0 <= i < |g| ==> g[i].Some?) ==>
      |r| == |g| && forall i :: 0 <= i < |g| ==> r[i] == g[i].value
  {
    if |g| == 0 then []
    else
      var rest := FilterNotNull(g[..|g| - 1]);
      assert forall i :: 0 <= i < |g| - 1 ==> g[..|g| - 1][i] == g[i];
      if g[|g| - 1].Some? then rest + [g[|g| - 1].value] else rest
  }

  /** The cells a grid of the given side has before the fill. */
  function Skeleton(tiles: seq<Tile>, dim: int): (g: seq<Option<Tile>>)
    requires dim >= 0
    ensures |g| == dim * dim
  {
    PlacedGrid(Keep(tiles, true), dim * dim)
  }

  /** What the reconstruction needs to run without an index error: every fixed tile's home is a
      cell, and there are enough movable tiles for the empty cells. */
  predicate ArrangeReady(tiles: seq<Tile>, dim: int, mov: seq<Tile>) {
    && dim >= 0
    && (forall k :: 0 <= k < |Keep(tiles, true)| ==> 0 <= Keep(tiles, true)[k].correctId < dim * dim)
    && Holes(Skeleton(tiles, dim), dim * dim) <= |mov|
  }

  /** The grid rebuilt from the fixed tiles of tiles and the shuffled movable tiles mov. */
  function Arrangement(tiles: seq<Tile>, dim: int, mov: seq<Tile>): seq<Tile>
    requires ArrangeReady(tiles, dim, mov)
  {
    FilterNotNull(Filled(Skeleton(tiles, dim), mov))
  }

  /** Writes each fixed tile into its home cell. */
  method PlaceFixed(finalGrid: array<Option<Tile>>, fixedTiles: seq<Tile>)
    requires forall k :: 0 <= k < |fixedTiles| ==> 0 <= fixedTiles[k].correctId < finalGrid.Length
    requires forall k :: 0 <= k < finalGrid.Length ==> finalGrid[k].None?
    modifies finalGrid
    ensures finalGrid[..] == PlacedGrid(fixedTiles, finalGrid.Length)
  {
    var n := finalGrid.Length;
    assert finalGrid[..] == PlacedGrid(fixedTiles[..0], n);
    for j := 0 to |fixedTiles|
      invariant finalGrid[..] == PlacedGrid(fixedTiles[..j], n)
    {
      var tile := fixedTiles[j];
      PlacedStep(fixedTiles[..j], tile, n);
      assert fixedTiles[..j + 1] == fixedTiles[..j] + [tile];
      ghost var before := finalGrid[..];
      finalGrid[tile.correctId] := Some(tile);
      assert finalGrid[..] == before[tile.correctId := Some(tile)];
    }
    assert fixedTiles[..|fixedTiles|] == fixedTiles;
  }

  /** Fills each empty cell, left to right, with the next movable tile, recording its position. */
  method FillHoles(finalGrid: array<Option<Tile>>, mutableTiles: seq<Tile>)
    requires Holes(finalGrid[..], finalGrid.Length) <= |mutableTiles|
    modifies finalGrid
    ensures finalGrid[..] == Filled(old(finalGrid[..]), mutableTiles)
  {
    ghost var g := finalGrid[..];
    var n := finalGrid.Length;
    var mutIdx := 0;
    assert finalGrid[..] == FilledBelow(g, mutableTiles, 0);
    for i := 0 to n
      invariant mutIdx == Holes(g, i)
      invariant finalGrid[..] == FilledBelow(g, mutableTiles, i)
    {
      FillStep(g, mutableTiles, i);
      if finalGrid[i] == None {
        HolesMonotone(g, i + 1, n);
        var tile := mutableTiles[mutIdx];
        ghost var before := finalGrid[..];
        finalGrid[i] := Some(tile.(currentIdx := i));
        assert finalGrid[..] == before[i := FillAt(g, mutableTiles, i)];
        mutIdx := mutIdx + 1;
      }
    }
    assert finalGrid[..] == Filled(g, mutableTiles);
  }

  /** The reconstruction of the shuffled board: an array of empty cells, the fixed tiles written
      at their homes, then a left-to-right pass filling each empty cell with the next movable
      tile, and finally the non-empty cells in order. */
  method Arrange(tiles: seq<Tile>, dim: int, mutableTiles: seq<Tile>) returns (shuffled: seq<Tile>)
    requires ArrangeReady(tiles, dim, mutableTiles)
    ensures shuffled == Arrangement(tiles, dim, mutableTiles)
  {
    var fixedTiles := Keep(tiles, true);
    var finalGrid := new Option<Tile>[dim * dim](_ => None);
    PlaceFixed(finalGrid, fixedTiles);
    FillHoles(finalGrid, mutableTiles);
    shuffled := FilterNotNull(finalGrid[..]);
  }

  /** Distinct homes stay distinct after a filter. */
  lemma {:induction false} KeepDistinct(tiles: seq<Tile>, fixed: bool)
    requires forall a, b :: 0 <= a < b < |tiles| ==> tiles[a].correctId != tiles[b].correctId
    ensures forall a, b :: 0 <= a < b < |Keep(tiles, fixed)| ==>
      Keep(tiles, fixed)[a].correctId != Keep(tiles, fixed)[b].correctId
    decreases |tiles|
  {
    if |tiles| > 0 {
      var front, last := tiles[..|tiles| - 1], tiles[|tiles| - 1];
      KeepDistinct(front, fixed);
      var kf := Keep(front, fixed);
      forall k | 0 <= k < |kf| ensures kf[k].correctId != last.correctId {
        var i := KeepIndex(front, fixed, k);
      }
    }
  }

  /** How many of xs lie outside c. */
  function CountOutside(xs: seq<int>, c: set<int>): (n: nat)
    ensures n <= |xs|
  {
    if |xs| == 0 then 0
    else CountOutside(xs[..|xs| - 1], c) + (if xs[|xs| - 1] in c then 0 else 1)
  }

  lemma {:induction false} CountOutsideConcat(a: seq<int>, b: seq<int>, c: set<int>)
    ensures CountOutside(a + b, c) == CountOutside(a, c) + CountOutside(b, c)
    decreases |b|
  {
    if |b| > 0 {
      assert (a + b)[..|a + b| - 1] == a + b[..|b| - 1];
      CountOutsideConcat(a, b[..|b| - 1], c);
    } else {
      assert a + b == a;
    }
  }

  /** Removing position j removes that value from the count. */
  lemma CountOutsideRemove(ys: seq<int>, j: int, c: set<int>)
    requires 0 <= j < |ys|
    ensures CountOutside(ys, c) == CountOutside(ys[..j] + ys[j + 1..], c) + CountOutside([ys[j]], c)
  {
    assert ys == ys[..j] + [ys[j]] + ys[j + 1..];
    CountOutsideConcat(ys[..j] + [ys[j]], ys[j + 1..], c);
    CountOutsideConcat(ys[..j], [ys[j]], c);
    CountOutsideConcat(ys[..j], ys[j + 1..], c);
  }

  /** Taking the same value out of two sequences with equal multisets leaves equal multisets. */
  lemma MultisetRemoveLast(xs: seq<int>, ys: seq<int>, j: int)
    requires multiset(xs) == multiset(ys) && |xs| > 0 && 0 <= j < |ys| && ys[j] == xs[|xs| - 1]
    ensures multiset(xs[..|xs| - 1]) == multiset(ys[..j] + ys[j + 1..])
  {
    var x := xs[|xs| - 1];
    MultisetAround(ys, j);
    MultisetAround(xs, |xs| - 1);
    assert xs[..|xs| - 1] + xs[|xs|..] == xs[..|xs| - 1];
    var a, b := multiset(xs[..|xs| - 1]), multiset(ys[..j] + ys[j + 1..]);
    assert a + multiset{x} == b + multiset{x};
    forall y ensures a[y] == b[y] {
      assert (a + multiset{x})[y] == (b + multiset{x})[y];
    }
  }

  /** The count depends only on the multiset of values. */
  lemma {:induction false} CountOutsideMultiset(xs: seq<int>, ys: seq<int>, c: set<int>)
    requires multiset(xs) == multiset(ys)
    ensures CountOutside(xs, c) == CountOutside(ys, c)
    decreases |xs|
  {
    if |xs| == 0 {
      assert |multiset(ys)| == 0;
    } else {
      var x := xs[|xs| - 1];
      assert x in multiset(xs);
      var j :| 0 <= j < |ys| && ys[j] == x;
      MultisetRemoveLast(xs, ys, j);
      CountOutsideMultiset(xs[..|xs| - 1], ys[..j] + ys[j + 1..], c);
      CountOutsideRemove(ys, j, c);
      assert [x][..0] == [];
    }
  }

  /** 0, 1, ..., n - 1. */
  function Iota(n: nat): (r: seq<int>)
    ensures |r| == n && forall i :: 0 <= i < n ==> r[i] == i
  {
    seq(n, i requires 0 <= i < n => i)
  }

  /** A permutation has as many values outside c as 0..n-1 has. */
  lemma CountOutsidePermutation(p: seq<int>, c: set<int>)
    requires IsPermutation(p)
    ensures CountOutside(p, c) == CountOutside(Iota(|p|), c)
  {
    assert Reindex(Iota(|p|), p) == p;
    ReindexMultiset(Iota(|p|), p);
    CountOutsideMultiset(p, Iota(|p|), c);
  }

  /** When a tile is fixed exactly if its home lies in c, the movable tiles are as many as the
      homes outside c. */
  lemma {:induction false} CountMovables(tiles: seq<Tile>, c: set<int>)
    requires forall i :: 0 <= i < |tiles| ==> (tiles[i].isFixed <==> tiles[i].correctId in c)
    ensures |Keep(tiles, false)| == CountOutside(CorrectIds(tiles), c)
    decreases |tiles|
  {
    if |tiles| > 0 {
      var front := tiles[..|tiles| - 1];
      assert CorrectIds(tiles)[..|tiles| - 1] == CorrectIds(front);
      CountMovables(front, c);
    }
  }

  /** When exactly the cells outside c are empty, the empty cells below i are the numbers below
      i outside c. */
  lemma {:induction false} HolesCount(g: seq<Option<Tile>>, c: set<int>, i: nat)
    requires i <= |g| && forall k :: 0 <= k < |g| ==> (g[k].None? <==> k !in c)
    ensures Holes(g, i) == CountOutside(Iota(i), c)
  {
    if i > 0 {
      assert Iota(i)[..i - 1] == Iota(i - 1);
      HolesCount(g, c, i - 1);
    }
  }

  /** In a valid grid, before the fill, a cell is occupied exactly when it is a corner, and then by
      the fixed tile whose home it is. */
  lemma SkeletonCell(tiles: seq<Tile>, dim: int, k: int)
    requires GridValid(tiles, dim) && 0 <= k < dim * dim
    ensures Skeleton(tiles, dim)[k].Some? <==> k in CornerIndices(dim)
    ensures Skeleton(tiles, dim)[k].Some? ==> Skeleton(tiles, dim)[k].value == tiles[Owner(tiles, k)]
  {
    var fs := Keep(tiles, true);
    var p := CorrectIds(tiles);
    if k in CornerIndices(dim) {
      var i := Owner(tiles, k);
      var j := KeepPos(tiles, true, i);
      assert fs[j].correctId == k;
      var v := Placed(fs, k).value;
      var i' := KeepIndex(tiles, true, Locate(fs, v));
      assert p[i'] == p[i];
    } else {
      forall j | 0 <= j < |fs| ensures fs[j].correctId != k {
        var i := KeepIndex(tiles, true, j);
      }
    }
  }

  /** In a valid grid the empty cells are exactly as many as the movable tiles. */
  lemma HolesMatchMovables(tiles: seq<Tile>, dim: int)
    requires GridValid(tiles, dim)
    ensures Holes(Skeleton(tiles, dim), dim * dim) == |Keep(tiles, false)|
  {
    var c := CornerIndices(dim);
    var g := Skeleton(tiles, dim);
    forall k | 0 <= k < |g| ensures g[k].None? <==> k !in c {
      SkeletonCell(tiles, dim, k);
    }
    HolesCount(g, c, |g|);
    CountOutsidePermutation(CorrectIds(tiles), c);
    CountMovables(tiles, c);
  }

  /** The cells 0 .. n - 1. */
  function Below(n: nat): (r: set<int>)
    ensures forall i :: i in r <==> 0 <= i < n
  {
    if n == 0 then {} else Below(n - 1) + {n - 1}
  }

  /** Of the first n cells, those outside c and those inside c make up all n. */
  lemma {:induction false} CountOutsideIota(n: nat, c: set<int>)
    ensures CountOutside(Iota(n), c) + |c * Below(n)| == n
  {
    if n > 0 {
      assert Iota(n)[..n - 1] == Iota(n - 1);
      CountOutsideIota(n - 1, c);
      if n - 1 in c {
        assert c * Below(n) == c * Below(n - 1) + {n - 1};
      } else {
        assert c * Below(n) == c * Below(n - 1);
      }
    }
  }

  /** Every tile is either fixed or movable. */
  lemma {:induction false} KeepSplits(tiles: seq<Tile>)
    ensures |Keep(tiles, true)| + |Keep(tiles, false)| == |tiles|
    decreases |tiles|
  {
    if |tiles| > 0 {
      KeepSplits(tiles[..|tiles| - 1]);
    }
  }

  /** A valid grid of side at least 2 holds exactly the four corner tiles as fixed tiles and
      dim^2 - 4 movable ones; a 1 x 1 grid holds one fixed tile. */
  lemma FixedTileCount(tiles: seq<Tile>, dim: int)
    requires GridValid(tiles, dim) && dim >= 1
    ensures dim >= 2 ==> |Keep(tiles, true)| == 4 && |Keep(tiles, false)| == dim * dim - 4
    ensures dim == 1 ==> |Keep(tiles, true)| == 1 && |Keep(tiles, false)| == 0
  {
    var c := CornerIndices(dim);
    CornerCount(dim);
    CornersBelow(dim);
    CountMovables(tiles, c);
    CountOutsidePermutation(CorrectIds(tiles), c);
    CountOutsideIota(dim * dim, c);
    KeepSplits(tiles);
  }

  /** Every corner index is a cell of the grid. */
  lemma CornersBelow(dim: int)
    requires dim >= 1
    ensures CornerIndices(dim) * Below(dim * dim) == CornerIndices(dim)
  {
    RowGap(dim - 1, dim);
  }

  /** The grid a new level builds has exactly four fixed tiles once its side is at least 2. */
  lemma FreshFixedCount(tiles: seq<Tile>, dim: int, corners: Corners)
    requires dim >= 2 && |tiles| == dim * dim
    requires forall i :: 0 <= i < |tiles| ==> tiles[i] == FreshTile(i, dim, corners)
    ensures |Keep(tiles, true)| == 4
  {
    FreshGridValid(tiles, dim, corners);
    FixedTileCount(tiles, dim);
  }

  /** A valid grid with as many shuffled tiles as movable ones is ready for the reconstruction. */
  lemma GridReady(tiles: seq<Tile>, dim: int, mov: seq<Tile>)
    requires GridValid(tiles, dim) && |mov| == |Keep(tiles, false)|
    ensures ArrangeReady(tiles, dim, mov)
  {
    HolesMatchMovables(tiles, dim);
    var fs := Keep(tiles, true);
    forall k | 0 <= k < |fs| ensures 0 <= fs[k].correctId < dim * dim {
      var i := KeepIndex(tiles, true, k);
    }
  }

  /** Each cell after the fill and filterNotNull: an occupied cell keeps its tile, an empty one
      takes the next tile of mov with its position recorded. */
  lemma FilledCells(g: seq<Option<Tile>>, mov: seq<Tile>)
    requires Holes(g, |g|) <= |mov|
    ensures var r := FilterNotNull(Filled(g, mov));
      && |r| == |g|
      && (forall k :: 0 <= k < |g| && g[k].Some? ==> r[k] == g[k].value)
      && (forall k :: 0 <= k < |g| && g[k].None? ==>
            Holes(g, k) < |mov| && r[k] == mov[Holes(g, k)].(currentIdx := k)
            && Holes(g, k + 1) == Holes(g, k) + 1)
  {
    forall k | 0 <= k < |g| && g[k].None? ensures Holes(g, k) < |mov| {
      HolesMonotone(g, k + 1, |g|);
    }
  }

  /** Each cell of the rebuilt grid: a corner keeps the fixed tile whose home it is; any other
      cell holds the next shuffled tile, recording its new position. */
  lemma ArrangedCells(tiles: seq<Tile>, dim: int, mov: seq<Tile>)
    requires GridValid(tiles, dim) && |mov| == |Keep(tiles, false)|
    ensures ArrangeReady(tiles, dim, mov)
    ensures var r, g := Arrangement(tiles, dim, mov), Skeleton(tiles, dim);
      && |r| == dim * dim
      && (forall k :: 0 <= k < |r| && k in CornerIndices(dim) ==> r[k] == tiles[Owner(tiles, k)])
      && (forall k :: 0 <= k < |r| && k !in CornerIndices(dim) ==>
            Holes(g, k) < |mov| && r[k] == mov[Holes(g, k)].(currentIdx := k)
            && Holes(g, k + 1) == Holes(g, k) + 1)
  {
    GridReady(tiles, dim, mov);
    var g := Skeleton(tiles, dim);
    FilledCells(g, mov);
    forall k | 0 <= k < |g| ensures g[k].None? <==> k !in CornerIndices(dim)
      ensures g[k].Some? ==> g[k].value == tiles[Owner(tiles, k)]
    {
      SkeletonCell(tiles, dim, k);
    }
  }

  /** Where in tiles the j-th shuffled movable tile came from. */
  ghost function MovSource(tiles: seq<Tile>, order: seq<int>, j: int): (i: int)
    requires 0 <= j < |order| && forall k :: 0 <= k < |order| ==> 0 <= order[k] < |Keep(tiles, false)|
    ensures 0 <= i < |tiles| && tiles[i] == Reindex(Keep(tiles, false), order)[j]
  {
    KeepIndex(tiles, false, order[j])
  }

  /** The shuffled movable tiles come from the grid, are movable, and have distinct homes. */
  lemma ShuffledFacts(tiles: seq<Tile>, dim: int, order: seq<int>)
    requires GridValid(tiles, dim) && IsPermutation(order) && |order| == |Keep(tiles, false)|
    ensures var mov := Reindex(Keep(tiles, false), order);
      && (forall j :: 0 <= j < |mov| ==> !mov[j].isFixed && mov[j].correctId !in CornerIndices(dim))
      && (forall a, b :: 0 <= a < b < |mov| ==> mov[a].correctId != mov[b].correctId)
  {
    var p := CorrectIds(tiles);
    forall a, b | 0 <= a < b < |tiles| ensures tiles[a].correctId != tiles[b].correctId {
      assert p[a] != p[b];
    }
    KeepDistinct(tiles, false);
    var mov := Reindex(Keep(tiles, false), order);
    forall j | 0 <= j < |mov| ensures mov[j].correctId !in CornerIndices(dim) {
      var i := MovSource(tiles, order, j);
    }
    forall a, b | 0 <= a < b < |mov| ensures mov[a].correctId != mov[b].correctId {
      assert order[a] != order[b];
    }
  }

  /** Cells in c hold their own home; the other cells take tiles with homes outside c from mov,
      in increasing order of the hole count. Then no two cells share a home. */
  lemma DistinctFromCells(r: seq<Tile>, mov: seq<Tile>, g: seq<Option<Tile>>, c: set<int>)
    requires |r| <= |g|
    requires forall k :: 0 <= k < |r| && k in c ==> r[k].correctId == k
    requires forall k :: 0 <= k < |r| && k !in c ==>
      && Holes(g, k) < |mov| && r[k].correctId == mov[Holes(g, k)].correctId
      && Holes(g, k + 1) == Holes(g, k) + 1
    requires forall j :: 0 <= j < |mov| ==> mov[j].correctId !in c
    requires forall a, b :: 0 <= a < b < |mov| ==> mov[a].correctId != mov[b].correctId
    ensures forall a, b :: 0 <= a < b < |r| ==> r[a].correctId != r[b].correctId
  {
    forall a, b | 0 <= a < b < |r| ensures r[a].correctId != r[b].correctId {
      if a !in c && b !in c {
        HolesMonotone(g, a + 1, b);
      }
    }
  }

  /** The position in tiles that cell k of the rebuilt grid draws its tile from. */
  ghost function Source(tiles: seq<Tile>, dim: int, order: seq<int>, k: int): (i: int)
    requires GridValid(tiles, dim) && IsPermutation(order) && |order| == |Keep(tiles, false)|
    requires ArrangeReady(tiles, dim, Reindex(Keep(tiles, false), order))
    requires 0 <= k < |Arrangement(tiles, dim, Reindex(Keep(tiles, false), order))|
    ensures 0 <= i < |tiles|
    ensures Strip(Arrangement(tiles, dim, Reindex(Keep(tiles, false), order))[k]) == Strip(tiles[i])
  {
    ArrangedCells(tiles, dim, Reindex(Keep(tiles, false), order));
    if k in CornerIndices(dim) then Owner(tiles, k)
    else MovSource(tiles, order, Holes(Skeleton(tiles, dim), k))
  }

  /** The rebuilt grid is valid and holds the same tiles. */
  lemma ShuffleGridValid(tiles: seq<Tile>, dim: int, order: seq<int>)
    requires GridValid(tiles, dim) && IsPermutation(order) && |order| == |Keep(tiles, false)|
    ensures ArrangeReady(tiles, dim, Reindex(Keep(tiles, false), order))
    ensures var r := Arrangement(tiles, dim, Reindex(Keep(tiles, false), order));
      GridValid(r, dim) && multiset(StripAll(r)) == multiset(StripAll(tiles))
  {
    var mov := Reindex(Keep(tiles, false), order);
    ArrangedDistinct(tiles, dim, order);
    var r := Arrangement(tiles, dim, mov);
    var from := seq(|r|, k requires 0 <= k < |r| => Source(tiles, dim, order, k));
    RearrangedBy(tiles, r, from, dim);
  }

  /** No two cells of a shuffled arrangement hold tiles with the same home. */
  lemma ArrangedDistinct(tiles: seq<Tile>, dim: int, order: seq<int>)
    requires GridValid(tiles, dim) && IsPermutation(order) && |order| == |Keep(tiles, false)|
    ensures ArrangeReady(tiles, dim, Reindex(Keep(tiles, false), order))
    ensures var r := Arrangement(tiles, dim, Reindex(Keep(tiles, false), order));
      |r| == |tiles| && forall a, b :: 0 <= a < b < |r| ==> r[a].correctId != r[b].correctId
  {
    var mov := Reindex(Keep(tiles, false), order);
    ArrangedCells(tiles, dim, mov);
    ShuffledFacts(tiles, dim, order);
    var r := Arrangement(tiles, dim, mov);
    DistinctFromCells(r, mov, Skeleton(tiles, dim), CornerIndices(dim));
  }

  /** The corner cells of an arrangement hold the very tiles whose home they are. */
  lemma ArrangedCorners(tiles: seq<Tile>, dim: int, mov: seq<Tile>)
    requires GridValid(tiles, dim) && |mov| == |Keep(tiles, false)|
    ensures ArrangeReady(tiles, dim, mov)
    ensures var r := Arrangement(tiles, dim, mov);
      forall k, i :: 0 <= k < |r| && k in CornerIndices(dim) && 0 <= i < |tiles| && tiles[i].correctId == k
        ==> r[k] == tiles[i]
  {
    ArrangedCells(tiles, dim, mov);
    var r := Arrangement(tiles, dim, mov);
    var p := CorrectIds(tiles);
    forall k, i | 0 <= k < |r| && k in CornerIndices(dim) && 0 <= i < |tiles| && tiles[i].correctId == k
      ensures r[k] == tiles[i]
    {
      assert p[i] == p[Owner(tiles, k)];
    }
  }

  /** The shuffle leaves a valid grid holding the same tiles, with every fixed tile unchanged at
      its home corner and every movable tile recording its position. */
  lemma ShuffleKeepsGrid(tiles: seq<Tile>, dim: int, order: seq<int>)
    requires GridValid(tiles, dim) && IsPermutation(order) && |order| == |Keep(tiles, false)|
    ensures ArrangeReady(tiles, dim, Reindex(Keep(tiles, false), order))
    ensures var r := Arrangement(tiles, dim, Reindex(Keep(tiles, false), order));
      && GridValid(r, dim)
      && multiset(StripAll(r)) == multiset(StripAll(tiles))
      && (forall k, i :: 0 <= k < |r| && k in CornerIndices(dim) && 0 <= i < |tiles| && tiles[i].correctId == k
            ==> r[k] == tiles[i])
      && (forall k :: 0 <= k < |r| && !r[k].isFixed ==> r[k].currentIdx == k)
  {
    var mov := Reindex(Keep(tiles, false), order);
    ShuffleGridValid(tiles, dim, order);
    ArrangedCorners(tiles, dim, mov);
  }
}
