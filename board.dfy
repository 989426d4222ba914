/** The tile list of a dim x dim puzzle: building a fresh grid, the invariants every grid keeps,
    exchanging two tiles, the hint search and the win test. Position i of the list is grid cell
    (i % dim, i / dim); a tile belongs at position correctId. */
module Board {
  import opened GameModels
  import opened Permutations
  import opened Cycles

  /** Row-major index of cell (x, y) in a grid w cells wide. */
  function Flat(x: int, y: int, w: int): int {
    y * w + x
  }

  /** The explicit corner test of the grid builder. */
  predicate IsCorner(x: int, y: int, w: int, h: int) {
    || (x == 0 && y == 0)
    || (x == w - 1 && y == 0)
    || (x == 0 && y == h - 1)
    || (x == w - 1 && y == h - 1)
  }

  /** Flat indices of the four corners of a dim x dim grid. */
  function CornerIndices(dim: int): set<int> {
    {0, dim - 1, dim * (dim - 1), dim * dim - 1}
  }

  /** Whole rows are at least w apart. */
  lemma RowGap(k: int, w: int)
    requires w > 0
    ensures k >= 1 ==> k * w >= w
    ensures k <= -1 ==> k * w <= -w
  {
    if k >= 1 {
      assert k * w == (k - 1) * w + w;
      assert (k - 1) * w >= 0;
    } else if k <= -1 {
      assert k * w == (k + 1) * w - w;
      assert (-k - 1) * w >= 0;
    }
  }

  /** Distinct cells have distinct flat indices. */
  lemma FlatUnique(x1: int, y1: int, x2: int, y2: int, w: int)
    requires 0 <= x1 < w && 0 <= x2 < w
    requires Flat(x1, y1, w) == Flat(x2, y2, w)
    ensures x1 == x2 && y1 == y2
  {
    RowGap(y2 - y1, w);
    assert (y2 - y1) * w == x1 - x2;
  }

  /** Cells visited earlier in row-major order have smaller flat indices. */
  lemma FlatOrder(x: int, y: int, w: int)
    requires 0 <= x <= w
    ensures forall x', y' :: 0 <= x' < w && (y' < y || (y' == y && x' < x)) ==>
      Flat(x', y', w) < Flat(x, y, w)
  {
    forall x', y' | 0 <= x' < w && (y' < y || (y' == y && x' < x))
      ensures Flat(x', y', w) < Flat(x, y, w)
    {
      RowGap(y - y', w);
    }
  }

  /** A cell is a corner exactly when its flat index is one of the four corner indices. */
  lemma CornerFlat(x: int, y: int, dim: int)
    requires 0 <= x < dim && 0 <= y < dim
    ensures IsCorner(x, y, dim, dim) <==> Flat(x, y, dim) in CornerIndices(dim)
  {
    assert Flat(0, 0, dim) == 0;
    assert Flat(dim - 1, 0, dim) == dim - 1;
    assert Flat(0, dim - 1, dim) == dim * (dim - 1);
    assert Flat(dim - 1, dim - 1, dim) == dim * dim - 1;
    if Flat(x, y, dim) == 0 {
      FlatUnique(x, y, 0, 0, dim);
    } else if Flat(x, y, dim) == dim - 1 {
      FlatUnique(x, y, dim - 1, 0, dim);
    } else if Flat(x, y, dim) == dim * (dim - 1) {
      FlatUnique(x, y, 0, dim - 1, dim);
    } else if Flat(x, y, dim) == dim * dim - 1 {
      FlatUnique(x, y, dim - 1, dim - 1, dim);
    }
  }

  /** A grid of side at least 2 has four distinct corners; a 1 x 1 grid has one. */
  lemma CornerCount(dim: int)
    requires dim >= 1
    ensures dim >= 2 ==> |CornerIndices(dim)| == 4
    ensures dim == 1 ==> CornerIndices(dim) == {0}
  {
    if dim >= 2 {
      RowGap(dim - 1, dim);
      assert 0 < dim - 1 < dim * (dim - 1) < dim * dim - 1;
    }
  }

  /** Row and column of a flat index are recovered by division and remainder. */
  lemma FlatDivMod(x: int, y: int, w: int)
    requires 0 <= x < w
    ensures Flat(x, y, w) % w == x && Flat(x, y, w) / w == y
  {
    var i := Flat(x, y, w);
    FlatUnique(i % w, i / w, x, y, w);
  }

  /** The tile a new level places at flat index i. */
  function FreshTile(i: int, dim: int, corners: Corners): Tile
    requires dim > 0
  {
    Tile(i, i, Interpolated(i % dim, i / dim, dim, dim, corners), i in CornerIndices(dim), i)
  }

  /** The fresh tile of cell (x, y) carries that cell's colour and is fixed exactly at a corner. */
  lemma FreshTileAtCell(x: int, y: int, dim: int, corners: Corners)
    requires 0 <= x < dim && 0 <= y < dim
    ensures FreshTile(Flat(x, y, dim), dim, corners).rgb == Interpolated(x, y, dim, dim, corners)
    ensures FreshTile(Flat(x, y, dim), dim, corners).isFixed <==> IsCorner(x, y, dim, dim)
  {
    FlatDivMod(x, y, dim);
    CornerFlat(x, y, dim);
  }

  /** Appending the tile the builder makes for cell (x, y) keeps the list a prefix of fresh tiles. */
  lemma AppendFresh(tiles: seq<Tile>, x: int, y: int, dim: int, corners: Corners, t: Tile)
    requires 0 <= x < dim && 0 <= y < dim && |tiles| == Flat(x, y, dim)
    requires forall i :: 0 <= i < |tiles| ==> tiles[i] == FreshTile(i, dim, corners)
    requires t == Tile(|tiles|, |tiles|, Interpolated(x, y, dim, dim, corners), IsCorner(x, y, dim, dim), |tiles|)
    ensures forall i :: 0 <= i < |tiles + [t]| ==> (tiles + [t])[i] == FreshTile(i, dim, corners)
  {
    FreshTileAtCell(x, y, dim, corners);
  }

  /** Every cell of a complete fresh list carries its colour and is fixed exactly at a corner. */
  lemma FreshCells(tiles: seq<Tile>, dim: int, corners: Corners)
    requires dim > 0 && |tiles| == dim * dim
    requires forall i :: 0 <= i < |tiles| ==> tiles[i] == FreshTile(i, dim, corners)
    ensures forall x, y :: 0 <= x < dim && 0 <= y < dim ==>
      && Flat(x, y, dim) < |tiles|
      && tiles[Flat(x, y, dim)].rgb == Interpolated(x, y, dim, dim, corners)
      && (tiles[Flat(x, y, dim)].isFixed <==> IsCorner(x, y, dim, dim))
  {
    forall x, y | 0 <= x < dim && 0 <= y < dim
      ensures Flat(x, y, dim) < |tiles|
      ensures tiles[Flat(x, y, dim)].rgb == Interpolated(x, y, dim, dim, corners)
      ensures tiles[Flat(x, y, dim)].isFixed <==> IsCorner(x, y, dim, dim)
    {
      FlatOrder(0, dim, dim);
      FreshTileAtCell(x, y, dim, corners);
    }
  }

  /** The tile list of a new level: tile i has id, correctId and currentIdx i, is painted by
      bilinear interpolation of the corners, and is fixed exactly at the four corners. */
  method BuildGrid(dim: int, corners: Corners) returns (tiles: seq<Tile>)
    ensures dim >= 0 ==> |tiles| == dim * dim
    ensures dim <= 0 ==> tiles == []
    ensures forall i :: 0 <= i < |tiles| ==> tiles[i] == FreshTile(i, dim, corners)
    ensures forall x, y :: 0 <= x < dim && 0 <= y < dim ==>
      && Flat(x, y, dim) < |tiles|
      && tiles[Flat(x, y, dim)].rgb == Interpolated(x, y, dim, dim, corners)
      && (tiles[Flat(x, y, dim)].isFixed <==> IsCorner(x, y, dim, dim))
  {
    var w, h := dim, dim;
    tiles := [];
    var idCounter := 0;
    var y := 0;
    while y < h
      invariant 0 <= y && (y <= h || y == 0)
      invariant idCounter == |tiles| == Flat(0, y, w)
      invariant forall i :: 0 <= i < |tiles| ==> tiles[i] == FreshTile(i, dim, corners)
    {
      var x := 0;
      while x < w
        invariant 0 <= x <= w
        invariant idCounter == |tiles| == Flat(x, y, w)
        invariant forall i :: 0 <= i < |tiles| ==> tiles[i] == FreshTile(i, dim, corners)
      {
        var isTopLeft := x == 0 && y == 0;
        var isTopRight := x == w - 1 && y == 0;
        var isBottomLeft := x == 0 && y == h - 1;
        var isBottomRight := x == w - 1 && y == h - 1;
        var isFixed := isTopLeft || isTopRight || isBottomLeft || isBottomRight;
        var colorData := Interpolated(x, y, w, h, corners);
        var tile := Tile(idCounter, idCounter, colorData, isFixed, idCounter);
        AppendFresh(tiles, x, y, dim, corners, tile);
        tiles := tiles + [tile];
        idCounter := idCounter + 1;
        x := x + 1;
      }
      assert Flat(w, y, w) == Flat(0, y + 1, w);
      y := y + 1;
    }
    if dim > 0 {
      FreshCells(tiles, dim, corners);
    }
  }

  /** What every tile list of a dim x dim game satisfies: one tile per cell, the tiles' home
      cells are a permutation of the cells, a tile's id is its home cell, and exactly the
      tiles whose home is a corner are fixed. */
  ghost predicate GridValid(tiles: seq<Tile>, dim: int) {
    && dim >= 0 && |tiles| == dim * dim
    && HomesInRange(tiles)
    && IsPermutation(CorrectIds(tiles))
    && (forall i :: 0 <= i < |tiles| ==> tiles[i].id == tiles[i].correctId)
    && (forall i :: 0 <= i < |tiles| ==> (tiles[i].isFixed <==> tiles[i].correctId in CornerIndices(dim)))
  }

  /** Every tile's home is a position of the list. */
  predicate HomesInRange(tiles: seq<Tile>) {
    forall i :: 0 <= i < |tiles| ==> 0 <= tiles[i].correctId < |tiles|
  }

  /** The win test: every tile sits at its home cell. */
  predicate IsSolved(tiles: seq<Tile>) {
    forall i :: 0 <= i < |tiles| ==> tiles[i].correctId == i
  }

  /** Every tile's currentIdx names the position it occupies. */
  predicate PositionsTracked(tiles: seq<Tile>) {
    forall i :: 0 <= i < |tiles| ==> tiles[i].currentIdx == i
  }

  /** A fresh grid is valid, already solved, and tracks its positions. */
  lemma FreshGridValid(tiles: seq<Tile>, dim: int, corners: Corners)
    requires dim >= 0 && |tiles| == dim * dim
    requires forall i :: 0 <= i < |tiles| ==> tiles[i] == FreshTile(i, dim, corners)
    ensures GridValid(tiles, dim) && IsSolved(tiles) && PositionsTracked(tiles)
  {
    var p := CorrectIds(tiles);
    assert forall i :: 0 <= i < |p| ==> p[i] == i;
  }

  /** A tile with its position bookkeeping erased: what the player sees of it. */
  function Strip(t: Tile): Tile {
    t.(currentIdx := 0)
  }

  function StripAll(tiles: seq<Tile>): (r: seq<Tile>)
    ensures |r| == |tiles| && forall i :: 0 <= i < |r| ==> r[i] == Strip(tiles[i])
  {
    seq(|tiles|, i requires 0 <= i < |tiles| => Strip(tiles[i]))
  }

  /** Composing two permutations of the same length gives a permutation. */
  lemma ComposePermutations(p: seq<int>, q: seq<int>)
    requires IsPermutation(p) && IsPermutation(q) && |p| == |q|
    ensures IsPermutation(Reindex(p, q))
  {
    var r := Reindex(p, q);
    forall a, b | 0 <= a < b < |r| ensures r[a] != r[b] {
      assert q[a] != q[b];
    }
  }

  /** A list whose tiles are those of a valid grid moved by a permutation q, with only
      currentIdx changed, is a valid grid holding the same tiles. */
  lemma GridRearranged(s: seq<Tile>, r: seq<Tile>, q: seq<int>, dim: int)
    requires GridValid(s, dim) && IsPermutation(q) && |q| == |s| == |r|
    requires forall k :: 0 <= k < |r| ==> Strip(r[k]) == Strip(s[q[k]])
    ensures GridValid(r, dim)
    ensures multiset(StripAll(r)) == multiset(StripAll(s))
  {
    assert CorrectIds(r) == Reindex(CorrectIds(s), q);
    ComposePermutations(CorrectIds(s), q);
    assert StripAll(r) == Reindex(StripAll(s), q);
    ReindexMultiset(StripAll(s), q);
  }

  /** Some position at which x occurs. */
  ghost function Locate(xs: seq<Tile>, x: Tile): (i: int)
    requires x in xs
    ensures 0 <= i < |xs| && xs[i] == x
  {
    var i :| 0 <= i < |xs| && xs[i] == x; i
  }

  /** The position of a tile with home k. */
  ghost function Owner(tiles: seq<Tile>, k: int): (i: int)
    requires IsPermutation(CorrectIds(tiles)) && 0 <= k < |tiles|
    ensures 0 <= i < |tiles| && tiles[i].correctId == k
  {
    PermutationIsOnto(CorrectIds(tiles), k);
    var i :| 0 <= i < |tiles| && CorrectIds(tiles)[i] == k; i
  }

  /** A list whose cell k holds, up to currentIdx, the tile at from[k] of a valid grid, with no
      two cells sharing a home, is a valid grid holding the same tiles. */
  lemma RearrangedBy(s: seq<Tile>, r: seq<Tile>, from: seq<int>, dim: int)
    requires GridValid(s, dim) && |from| == |r| == |s|
    requires forall k :: 0 <= k < |r| ==> 0 <= from[k] < |s| && Strip(r[k]) == Strip(s[from[k]])
    requires forall a, b :: 0 <= a < b < |r| ==> r[a].correctId != r[b].correctId
    ensures GridValid(r, dim)
    ensures multiset(StripAll(r)) == multiset(StripAll(s))
  {
    forall a, b | 0 <= a < b < |from| ensures from[a] != from[b] {
      assert Strip(r[a]).correctId != Strip(r[b]).correctId;
    }
    GridRearranged(s, r, from, dim);
  }

  /** Position of the first tile with the given id, or -1 (Kotlin's indexOfFirst). */
  function IndexOfId(tiles: seq<Tile>, id: int): (r: int)
    ensures -1 <= r < |tiles|
    ensures r == -1 <==> forall k :: 0 <= k < |tiles| ==> tiles[k].id != id
    ensures r >= 0 ==> tiles[r].id == id && forall k :: 0 <= k < r ==> tiles[k].id != id
  {
    if |tiles| == 0 then -1
    else if tiles[0].id == id then 0
    else
      var r := IndexOfId(tiles[1..], id);
      assert forall k :: 1 <= k < |tiles| ==> tiles[k] == tiles[1..][k - 1];
      if r == -1 then -1 else r + 1
  }

  /** Collections.swap of positions i and j, after which both tiles record their new position. */
  function SwapAt(tiles: seq<Tile>, i: int, j: int): (r: seq<Tile>)
    requires 0 <= i < |tiles| && 0 <= j < |tiles|
    ensures |r| == |tiles|
    ensures r[i] == tiles[j].(currentIdx := i) && r[j] == tiles[i].(currentIdx := j)
    ensures forall k :: 0 <= k < |tiles| && k != i && k != j ==> r[k] == tiles[k]
  {
    var swapped := tiles[i := tiles[j]][j := tiles[i]];
    swapped[i := swapped[i].(currentIdx := i)][j := swapped[j].(currentIdx := j)]
  }

  /** A swap keeps a valid grid valid and keeps the same tiles. */
  lemma SwapKeepsGrid(tiles: seq<Tile>, dim: int, i: int, j: int)
    requires GridValid(tiles, dim) && 0 <= i < |tiles| && 0 <= j < |tiles|
    ensures GridValid(SwapAt(tiles, i, j), dim)
    ensures multiset(StripAll(SwapAt(tiles, i, j))) == multiset(StripAll(tiles))
  {
    GridRearranged(tiles, SwapAt(tiles, i, j), Exchange(|tiles|, i, j), dim);
  }

  /** Swapping the same two positions twice restores a list that tracks its positions. */
  lemma SwapTwice(tiles: seq<Tile>, i: int, j: int)
    requires PositionsTracked(tiles) && 0 <= i < |tiles| && 0 <= j < |tiles|
    ensures SwapAt(SwapAt(tiles, i, j), i, j) == tiles
  {
    var r := SwapAt(SwapAt(tiles, i, j), i, j);
    assert forall k :: 0 <= k < |tiles| ==> r[k] == tiles[k];
  }

  /** A swap keeps currentIdx in step with positions. */
  lemma SwapTracksPositions(tiles: seq<Tile>, i: int, j: int)
    requires PositionsTracked(tiles) && 0 <= i < |tiles| && 0 <= j < |tiles|
    ensures PositionsTracked(SwapAt(tiles, i, j))
  {
  }

  /** Position of the first tile equal to t, comparing every field, or -1 (Kotlin's indexOf on a
      data class). */
  function IndexOfTile(tiles: seq<Tile>, t: Tile): (r: int)
    ensures -1 <= r < |tiles|
    ensures r == -1 <==> t !in tiles
    ensures r >= 0 ==> tiles[r] == t && forall k :: 0 <= k < r ==> tiles[k] != t
  {
    if |tiles| == 0 then -1
    else if tiles[0] == t then 0
    else
      var r := IndexOfTile(tiles[1..], t);
      assert forall k :: 1 <= k < |tiles| ==> tiles[k] == tiles[1..][k - 1];
      assert tiles == [tiles[0]] + tiles[1..];
      if r == -1 then -1 else r + 1
  }

  /** When ids are distinct, a tile is found at its own position. */
  lemma IndexOfDistinct(tiles: seq<Tile>, i: int)
    requires 0 <= i < |tiles|
    requires forall a, b :: 0 <= a < b < |tiles| ==> tiles[a].id != tiles[b].id
    ensures IndexOfTile(tiles, tiles[i]) == i
  {
  }

  /** The hint's test: a movable tile whose position, as indexOf reports it, is not its home. */
  predicate Misplaced(tiles: seq<Tile>, i: int)
    requires 0 <= i < |tiles|
  {
    tiles[i].correctId != IndexOfTile(tiles, tiles[i]) && !tiles[i].isFixed
  }

  /** First misplaced position at or after k, or -1. */
  function FirstMisplacedFrom(tiles: seq<Tile>, k: nat): (r: int)
    requires k <= |tiles|
    ensures r == -1 || k <= r < |tiles|
    ensures r == -1 <==> forall i :: k <= i < |tiles| ==> !Misplaced(tiles, i)
    ensures r >= 0 ==> Misplaced(tiles, r) && forall i :: k <= i < r ==> !Misplaced(tiles, i)
    decreases |tiles| - k
  {
    if k == |tiles| then -1
    else if Misplaced(tiles, k) then k
    else FirstMisplacedFrom(tiles, k + 1)
  }

  /** The tile the hint repairs: the first misplaced one, or -1 when there is none. */
  function FirstMisplaced(tiles: seq<Tile>): (r: int)
    ensures -1 <= r < |tiles|
    ensures r == -1 <==> forall i :: 0 <= i < |tiles| ==> !Misplaced(tiles, i)
    ensures r >= 0 ==> Misplaced(tiles, r) && forall i :: 0 <= i < r ==> !Misplaced(tiles, i)
  {
    FirstMisplacedFrom(tiles, 0)
  }

  /** In a valid grid a tile is misplaced exactly when it is movable and away from home. */
  lemma MisplacedInGrid(tiles: seq<Tile>, dim: int, i: int)
    requires GridValid(tiles, dim) && 0 <= i < |tiles|
    ensures Misplaced(tiles, i) <==> !tiles[i].isFixed && tiles[i].correctId != i
  {
    var p := CorrectIds(tiles);
    forall a, b | 0 <= a < b < |tiles| ensures tiles[a].id != tiles[b].id {
      assert p[a] != p[b];
    }
    IndexOfDistinct(tiles, i);
  }

  /** The hint: move the first misplaced tile to its home cell by a swap; nothing changes when
      there is no misplaced tile. */
  function HintStep(tiles: seq<Tile>): (r: seq<Tile>)
    requires HomesInRange(tiles)
    ensures |r| == |tiles|
    ensures FirstMisplaced(tiles) == -1 ==> r == tiles
    ensures FirstMisplaced(tiles) >= 0 ==> var w := FirstMisplaced(tiles);
      r == SwapAt(tiles, w, tiles[w].correctId) && r[tiles[w].correctId].correctId == tiles[w].correctId
  {
    var w := FirstMisplaced(tiles);
    if w == -1 then tiles else SwapAt(tiles, w, tiles[w].correctId)
  }

  /** Number of positions below m that hold their own tile. */
  function CountCorrect(tiles: seq<Tile>, m: nat): (c: nat)
    requires m <= |tiles|
    ensures c <= m
  {
    if m == 0 then 0
    else CountCorrect(tiles, m - 1) + (if tiles[m - 1].correctId == m - 1 then 1 else 0)
  }

  /** Every position holds its own tile exactly when all of them are counted. */
  lemma {:induction false} CountCorrectFull(tiles: seq<Tile>, m: nat)
    requires m <= |tiles|
    ensures CountCorrect(tiles, m) == m <==> forall i :: 0 <= i < m ==> tiles[i].correctId == i
  {
    if m > 0 {
      CountCorrectFull(tiles, m - 1);
    }
  }

  /** Positions other than a and b keep their tiles; a was wrong before; b becomes right. Then
      the count of correct positions below m grows by one once b is below m. */
  lemma {:induction false} CountCorrectGrows(s: seq<Tile>, r: seq<Tile>, a: int, b: int, m: nat)
    requires |r| == |s| && m <= |s| && 0 <= a < |s| && 0 <= b < |s| && a != b
    requires forall k :: 0 <= k < |s| && k != a && k != b ==> r[k].correctId == s[k].correctId
    requires s[a].correctId != a && s[b].correctId != b && r[b].correctId == b
    ensures CountCorrect(r, m) >= CountCorrect(s, m) + (if b < m then 1 else 0)
  {
    if m > 0 {
      CountCorrectGrows(s, r, a, b, m - 1);
    }
  }

  /** A hint in a valid grid with a misplaced tile puts one more tile at home, keeps the grid
      valid and keeps the same tiles. */
  lemma HintImproves(tiles: seq<Tile>, dim: int)
    requires GridValid(tiles, dim) && FirstMisplaced(tiles) >= 0
    ensures GridValid(HintStep(tiles), dim)
    ensures multiset(StripAll(HintStep(tiles))) == multiset(StripAll(tiles))
    ensures CountCorrect(HintStep(tiles), |tiles|) > CountCorrect(tiles, |tiles|)
  {
    var w := FirstMisplaced(tiles);
    var c := tiles[w].correctId;
    var p := CorrectIds(tiles);
    MisplacedInGrid(tiles, dim, w);
    assert p[w] == c && p[c] == tiles[c].correctId && w != c;
    SwapKeepsGrid(tiles, dim, w, c);
    CountCorrectGrows(tiles, HintStep(tiles), w, c, |tiles|);
  }

  /** When the hint finds nothing in a valid grid, every movable tile is at home. */
  lemma NoHintLeft(tiles: seq<Tile>, dim: int)
    requires GridValid(tiles, dim) && FirstMisplaced(tiles) == -1
    ensures forall i :: 0 <= i < |tiles| && !tiles[i].isFixed ==> tiles[i].correctId == i
  {
    forall i | 0 <= i < |tiles| && !tiles[i].isFixed ensures tiles[i].correctId == i {
      MisplacedInGrid(tiles, dim, i);
    }
  }

  /** A solved grid has nothing for the hint to do. */
  lemma SolvedHasNoHint(tiles: seq<Tile>, dim: int)
    requires GridValid(tiles, dim) && IsSolved(tiles)
    ensures FirstMisplaced(tiles) == -1
  {
    forall i | 0 <= i < |tiles| ensures !Misplaced(tiles, i) {
      MisplacedInGrid(tiles, dim, i);
    }
  }

  /** The win test agrees with the minimum-move count: a grid whose home cells form a permutation is
      solved exactly when no move is needed. */
  lemma WinIffNoMovesNeeded(tiles: seq<Tile>)
    requires IsPermutation(CorrectIds(tiles))
    ensures IsSolved(tiles) <==> |tiles| - CycleCount(CorrectIds(tiles)) == 0
  {
    var p := CorrectIds(tiles);
    SolvedIffNoMoves(p);
    assert forall i :: 0 <= i < |p| ==> p[i] == tiles[i].correctId;
  }
}
