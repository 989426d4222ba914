/** Game modes, their persisted names, the scope of each mode's level counter and the
    deterministic level seeds. */
module Modes {
  import opened GameModels

  /** Declared in this order, so the ordinals are 0, 1 and 2. */
  datatype GameMode = Casual | Ladder | Challenge

  /** Moves allowed per level in Ladder mode. */
  const LadderMoveLimit: int := 200

  function Ordinal(m: GameMode): int {
    match m
    case Casual => 0
    case Ladder => 1
    case Challenge => 2
  }

  /** The enum constant's name, as stored under the last-active-mode key. */
  function ModeName(m: GameMode): string {
    match m
    case Casual => "CASUAL"
    case Ladder => "LADDER"
    case Challenge => "CHALLENGE"
  }

  /** GameMode.valueOf: the mode with that exact name, or None where Kotlin throws. */
  function ModeFromName(name: string): (r: Option<GameMode>)
    ensures r.Some? ==> ModeName(r.value) == name
  {
    if name == "CASUAL" then Some(Casual)
    else if name == "LADDER" then Some(Ladder)
    else if name == "CHALLENGE" then Some(Challenge)
    else None
  }

  /** Every mode survives a round trip through its stored name. */
  lemma ModeNameRoundTrip(m: GameMode)
    ensures ModeFromName(ModeName(m)) == Some(m)
  {
  }

  /** What a level counter counts: Casual keeps one counter per grid size, the other modes one each. */
  datatype LevelScope = CasualSize(dim: int) | LadderLevels | ChallengeLevels

  function LevelScopeFor(m: GameMode, dim: int): (s: LevelScope)
    ensures s.CasualSize? <==> m == Casual
    ensures m == Casual ==> s.dim == dim
    ensures s == LadderLevels <==> m == Ladder
    ensures s == ChallengeLevels <==> m == Challenge
  {
    match m
    case Casual => CasualSize(dim)
    case Ladder => LadderLevels
    case Challenge => ChallengeLevels
  }

  /** Two games share a level counter exactly when they are in the same mode and, in Casual,
      on the same grid size: Ladder and Challenge never share one. */
  lemma LevelScopeSeparate(m1: GameMode, d1: int, m2: GameMode, d2: int)
    ensures LevelScopeFor(m1, d1) == LevelScopeFor(m2, d2) <==> m1 == m2 && (m1 == Casual ==> d1 == d2)
  {
    if LevelScopeFor(m1, d1) == LevelScopeFor(m2, d2) {
      assert LevelScopeFor(m1, d1).CasualSize? == LevelScopeFor(m2, d2).CasualSize?;
    }
  }

  /** The grid size matters to the counter only in Casual mode. */
  lemma LevelScopeIgnoresSizeOutsideCasual(m: GameMode, d1: int, d2: int)
    requires m != Casual
    ensures LevelScopeFor(m, d1) == LevelScopeFor(m, d2)
  {
  }

  /** Seed of a level's palette: (ordinal + 1) * 10000 + level. */
  function LevelSeed(m: GameMode, level: int): int {
    (Ordinal(m) + 1) * 10000 + level
  }

  /** The shuffle runs on a seed derived from the level seed. */
  function ShuffleSeed(levelSeed: int): int {
    levelSeed + 999
  }

  /** Below level 10000, distinct (mode, level) pairs get distinct seeds: mode and level can
      be read back from the seed. */
  lemma LevelSeedInjective(m1: GameMode, l1: int, m2: GameMode, l2: int)
    requires 0 <= l1 < 10000 && 0 <= l2 < 10000
    ensures LevelSeed(m1, l1) == LevelSeed(m2, l2) <==> m1 == m2 && l1 == l2
  {
    if LevelSeed(m1, l1) == LevelSeed(m2, l2) {
      assert (Ordinal(m1) - Ordinal(m2)) * 10000 == l2 - l1;
      assert Ordinal(m1) == Ordinal(m2);
    }
  }

  /** From level 10000 on, a Casual seed coincides with a Ladder seed. */
  lemma LevelSeedOverlap()
    ensures LevelSeed(Casual, 10001) == LevelSeed(Ladder, 1)
  {
  }
}
