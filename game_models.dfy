/** The value types of the puzzle: colours, the four corner anchors, tiles and the game status,
    with the bilinear colour interpolation that paints a fresh grid. Doubles are idealised as
    mathematical reals. */
module GameModels {

  /** A Kotlin nullable value. */
  datatype Option<T> = None | Some(value: T) {
    /** The value, or fallback when absent (Kotlin's `?:`). */
    function GetOr(fallback: T): T {
      if Some? then value else fallback
    }
  }

  /** A colour with channels nominally in [0, 1]. */
  datatype RGBData = RGBData(r: real, g: real, b: real)

  /** The anchor colours of the four grid corners. */
  datatype Corners = Corners(tl: RGBData, tr: RGBData, bl: RGBData, br: RGBData)

  /** One puzzle piece. Only currentIdx is mutable in the app; here it is rewritten with a
      datatype update. */
  datatype Tile = Tile(id: int, correctId: int, rgb: RGBData, isFixed: bool, currentIdx: int)

  datatype GameStatus = Menu | Preview | Playing | Animating | Won | GameOver

  /** Per-channel tolerance of IsSimilar. */
  const SimilarThreshold: real := 0.05

  function Abs(x: real): real {
    if x < 0.0 then -x else x
  }

  /** Two colours are similar when every channel differs by strictly less than the threshold. */
  predicate IsSimilar(a: RGBData, other: RGBData) {
    && Abs(a.r - other.r) < SimilarThreshold
    && Abs(a.g - other.g) < SimilarThreshold
    && Abs(a.b - other.b) < SimilarThreshold
  }

  lemma SimilarReflexive(a: RGBData)
    ensures IsSimilar(a, a)
  {
  }

  lemma SimilarSymmetric(a: RGBData, other: RGBData)
    ensures IsSimilar(a, other) <==> IsSimilar(other, a)
  {
  }

  /** Similarity is a tolerance, not an equivalence: it does not chain. */
  lemma SimilarNotTransitive()
    ensures var a, b, c := RGBData(0.0, 0.0, 0.0), RGBData(0.04, 0.0, 0.0), RGBData(0.08, 0.0, 0.0);
      IsSimilar(a, b) && IsSimilar(b, c) && !IsSimilar(a, c)
  {
  }

  function Min(a: real, b: real): real {
    if a <= b then a else b
  }

  function Max(a: real, b: real): real {
    if a <= b then b else a
  }

  /** Linear blend from start (t = 0) to end (t = 1). */
  function Lerp(start: real, end: real, t: real): (r: real)
    ensures t == 0.0 ==> r == start
    ensures t == 1.0 ==> r == end
    ensures 0.0 <= t <= 1.0 ==> Min(start, end) <= r <= Max(start, end)
  {
    LerpOffset(start, end, t);
    start * (1.0 - t) + end * t
  }

  /** The blend moves from start towards end by the fraction t of their gap. */
  lemma LerpOffset(start: real, end: real, t: real)
    ensures start * (1.0 - t) + end * t == start + (end - start) * t
    ensures 0.0 <= t <= 1.0 && start <= end ==> 0.0 <= (end - start) * t <= end - start
    ensures 0.0 <= t <= 1.0 && end < start ==> 0.0 <= (start - end) * t <= start - end
  {
    if 0.0 <= t <= 1.0 {
      if start <= end {
        MulNonNegative(end - start, t);
        MulNonNegative(end - start, 1.0 - t);
      } else {
        MulNonNegative(start - end, t);
        MulNonNegative(start - end, 1.0 - t);
      }
    }
  }

  lemma MulNonNegative(a: real, b: real)
    requires 0.0 <= a && 0.0 <= b
    ensures 0.0 <= a * b
  {
  }

  /** The divisor of the interpolation coordinate along an axis of the given length. */
  function Span(length: int): (d: int)
    ensures d >= 1
    ensures length >= 2 ==> d == length - 1
  {
    if 1 <= length - 1 then length - 1 else 1
  }

  /** Position of coordinate x along an axis of the given length, as a fraction. */
  function Fraction(x: int, length: int): (u: real)
    ensures x == 0 ==> u == 0.0
    ensures length >= 2 && x == length - 1 ==> u == 1.0
    ensures 0 <= x < length ==> 0.0 <= u <= 1.0
  {
    x as real / Span(length) as real
  }

  /** v lies between the least and the greatest of four values. */
  predicate Within4(v: real, a: real, b: real, c: real, d: real) {
    Min(Min(a, b), Min(c, d)) <= v <= Max(Max(a, b), Max(c, d))
  }

  /** Every channel of rgb lies within the range the four corners span in that channel. */
  predicate InCornerRange(rgb: RGBData, c: Corners) {
    && Within4(rgb.r, c.tl.r, c.tr.r, c.bl.r, c.br.r)
    && Within4(rgb.g, c.tl.g, c.tr.g, c.bl.g, c.br.g)
    && Within4(rgb.b, c.tl.b, c.tr.b, c.bl.b, c.br.b)
  }

  /** One channel of the bilinear blend: along the top and bottom edges by u, then between them by v. */
  function Bilinear(tl: real, tr: real, bl: real, br: real, u: real, v: real): (r: real)
    ensures 0.0 <= u <= 1.0 && 0.0 <= v <= 1.0 ==> Within4(r, tl, tr, bl, br)
  {
    Lerp(Lerp(tl, tr, u), Lerp(bl, br, u), v)
  }

  /** The colour of cell (x, y) of a width x height grid whose corners are painted c. */
  function Interpolated(x: int, y: int, width: int, height: int, c: Corners): (rgb: RGBData)
    ensures x == 0 && y == 0 ==> rgb == c.tl
    ensures width >= 2 && x == width - 1 && y == 0 ==> rgb == c.tr
    ensures height >= 2 && x == 0 && y == height - 1 ==> rgb == c.bl
    ensures width >= 2 && height >= 2 && x == width - 1 && y == height - 1 ==> rgb == c.br
    ensures 0 <= x < width && 0 <= y < height ==> InCornerRange(rgb, c)
  {
    var u := Fraction(x, width);
    var v := Fraction(y, height);
    RGBData(
      Bilinear(c.tl.r, c.tr.r, c.bl.r, c.br.r, u, v),
      Bilinear(c.tl.g, c.tr.g, c.bl.g, c.br.g, u, v),
      Bilinear(c.tl.b, c.tr.b, c.bl.b, c.br.b, u, v))
  }
}
