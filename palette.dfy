/** The discrete part of the corner palette: four sampled colours, lightest (c1) to darkest (c4),
    are dealt to the four corners by one of four rotations. The colour sampling itself is not
    modelled; colours are opaque here. */
module Palette {
  import opened GameModels
  import Permutations

  /** What the level's random stream yields for the palette. */
  datatype PaletteDraw = PaletteDraw(c1: RGBData, c2: RGBData, c3: RGBData, c4: RGBData, rotation: int)

  /** The corner order tl, tr, bl, br as a sequence. */
  function CornerList(c: Corners): seq<RGBData> {
    [c.tl, c.tr, c.bl, c.br]
  }

  /** Which of c1..c4 (as 0..3) each corner tl, tr, bl, br receives under a rotation. */
  function Deal(rotation: int): (d: seq<int>)
    ensures Permutations.IsPermutation(d) && |d| == 4
  {
    if rotation == 0 then [0, 1, 2, 3]
    else if rotation == 1 then [2, 0, 3, 1]
    else if rotation == 2 then [3, 2, 1, 0]
    else [1, 3, 0, 2]
  }

  /** The corners a draw paints: each corner receives the colour Deal names for it. */
  function RotateCorners(p: PaletteDraw): (c: Corners)
    ensures var cs, d := [p.c1, p.c2, p.c3, p.c4], Deal(p.rotation);
      CornerList(c) == [cs[d[0]], cs[d[1]], cs[d[2]], cs[d[3]]]
  {
    if p.rotation == 0 then Corners(p.c1, p.c2, p.c3, p.c4)
    else if p.rotation == 1 then Corners(p.c3, p.c1, p.c4, p.c2)
    else if p.rotation == 2 then Corners(p.c4, p.c3, p.c2, p.c1)
    else Corners(p.c2, p.c4, p.c1, p.c3)
  }

  /** Every sampled colour lands on some corner, whatever the rotation. */
  lemma RotationUsesEveryColour(p: PaletteDraw, k: int)
    requires 0 <= k < 4
    ensures exists j :: 0 <= j < 4 && CornerList(RotateCorners(p))[j] == [p.c1, p.c2, p.c3, p.c4][k]
  {
    var d := Deal(p.rotation);
    Permutations.PermutationIsOnto(d, k);
    var j :| 0 <= j < 4 && d[j] == k;
    assert CornerList(RotateCorners(p))[j] == [p.c1, p.c2, p.c3, p.c4][d[j]];
  }

  /** Turning the square a quarter clockwise: each corner's colour moves to the next corner. */
  function QuarterTurn(c: Corners): Corners {
    Corners(c.bl, c.tl, c.br, c.tr)
  }

  /** Each rotation is the previous one turned a quarter clockwise, and rotation 3 turned once more
      gives back rotation 0. */
  lemma RotationsAreQuarterTurns(c1: RGBData, c2: RGBData, c3: RGBData, c4: RGBData, r: int)
    requires 0 <= r < 4
    ensures QuarterTurn(RotateCorners(PaletteDraw(c1, c2, c3, c4, r)))
         == RotateCorners(PaletteDraw(c1, c2, c3, c4, (r + 1) % 4))
  {
    if r == 3 {
      assert (r + 1) % 4 == 0;
    }
  }

  /** Four quarter turns restore any corner assignment. */
  lemma FourQuarterTurns(c: Corners)
    ensures QuarterTurn(QuarterTurn(QuarterTurn(QuarterTurn(c)))) == c
  {
  }

  /** The lightest colour visits top-left, top-right, bottom-right and bottom-left in turn. */
  lemma LightestCorner(p: PaletteDraw)
    ensures p.rotation == 0 ==> RotateCorners(p).tl == p.c1
    ensures p.rotation == 1 ==> RotateCorners(p).tr == p.c1
    ensures p.rotation == 2 ==> RotateCorners(p).br == p.c1
    ensures p.rotation !in {0, 1, 2} ==> RotateCorners(p).bl == p.c1
  {
  }
}
