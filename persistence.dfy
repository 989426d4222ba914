/** The preferences store as the game uses it: one saved game per mode, the last active mode,
    and one level counter per level scope. Serialisation is idealised: a stored game document
    either parses to the record that was saved or does not parse at all. */
module Persistence {
  import opened GameModels
  import opened Modes

  /** The keys the game writes: "saved_game_state_<MODE>", "last_active_mode" and
      "level_count_<dim>" / "level_count_LADDER" / "level_count_CHALLENGE". */
  datatype Key = SavedGame(mode: GameMode) | LastActiveMode | LevelCount(scope: LevelScope)

  /** The persisted game record. minMoves and gameMode may be missing in documents written by
      older versions of the app. */
  datatype GameState = GameState(
    tiles: seq<Tile>,
    status: GameStatus,
    gridDimension: int,
    moves: int,
    corners: Option<Corners>,
    minMoves: Option<int>,
    gameMode: Option<GameMode>)

  /** A stored game document: the record it parses to, or one the parser rejects. */
  datatype Document = Parsed(state: GameState) | Unparsable

  datatype Stored = IntValue(i: int) | StringValue(s: string) | Json(doc: Document)

  type Prefs = map<Key, Stored>

  /** getInt(key, default). */
  function GetInt(prefs: Prefs, key: Key, default: int): (v: int)
    ensures key !in prefs ==> v == default
    ensures key in prefs && prefs[key].IntValue? ==> v == prefs[key].i
  {
    if key in prefs && prefs[key].IntValue? then prefs[key].i else default
  }

  /** getString(key, default). */
  function GetString(prefs: Prefs, key: Key, default: string): (v: string)
    ensures key !in prefs ==> v == default
    ensures key in prefs && prefs[key].StringValue? ==> v == prefs[key].s
  {
    if key in prefs && prefs[key].StringValue? then prefs[key].s else default
  }

  /** The level counter key of a mode; only Casual keys it by grid size. */
  function LevelKey(mode: GameMode, dim: int): Key {
    LevelCount(LevelScopeFor(mode, dim))
  }

  /** Saving writes the record under the mode's key and records the mode as last active. */
  function Save(prefs: Prefs, state: GameState, mode: GameMode): (p: Prefs)
    ensures SavedGame(mode) in p && p[SavedGame(mode)] == Json(Parsed(state))
    ensures LastActiveMode in p && p[LastActiveMode] == StringValue(ModeName(mode))
    ensures p.Keys == prefs.Keys + {SavedGame(mode), LastActiveMode}
    ensures forall k :: k in prefs && k != SavedGame(mode) && k != LastActiveMode ==> p[k] == prefs[k]
  {
    prefs[SavedGame(mode) := Json(Parsed(state))][LastActiveMode := StringValue(ModeName(mode))]
  }

  /** The record stored for a mode, or None when there is no save or it does not parse. */
  function Load(prefs: Prefs, mode: GameMode): (r: Option<GameState>)
    ensures r.Some? ==> SavedGame(mode) in prefs && prefs[SavedGame(mode)] == Json(Parsed(r.value))
    ensures SavedGame(mode) !in prefs || prefs[SavedGame(mode)] == Json(Unparsable) ==> r.None?
    ensures SavedGame(mode) in prefs && prefs[SavedGame(mode)].Json? && prefs[SavedGame(mode)].doc.Parsed? ==>
      r == Some(prefs[SavedGame(mode)].doc.state)
  {
    var key := SavedGame(mode);
    if key in prefs && prefs[key].Json? && prefs[key].doc.Parsed? then Some(prefs[key].doc.state) else None
  }

  /** The mode the app reopens in: the stored name, Casual when absent or unknown. */
  function LastMode(prefs: Prefs): (m: GameMode)
    ensures ModeFromName(GetString(prefs, LastActiveMode, ModeName(Casual))).Some? ==>
      ModeName(m) == GetString(prefs, LastActiveMode, ModeName(Casual))
    ensures ModeFromName(GetString(prefs, LastActiveMode, ModeName(Casual))).None? ==> m == Casual
  {
    ModeFromName(GetString(prefs, LastActiveMode, ModeName(Casual))).GetOr(Casual)
  }

  /** Adding one win to a level counter (absent counters read as 0). */
  function IncrementLevel(prefs: Prefs, key: Key): (p: Prefs)
    ensures GetInt(p, key, 0) == GetInt(prefs, key, 0) + 1
    ensures forall k :: k != key ==> (k in p <==> k in prefs) && (k in prefs ==> p[k] == prefs[k])
  {
    prefs[key := IntValue(GetInt(prefs, key, 0) + 1)]
  }

  /** A saved game loads back as it was saved. */
  lemma LoadAfterSave(prefs: Prefs, state: GameState, mode: GameMode)
    ensures Load(Save(prefs, state, mode), mode) == Some(state)
  {
  }

  /** Saving one mode leaves every other mode's save as it was. */
  lemma SaveIsolatesModes(prefs: Prefs, state: GameState, mode: GameMode, other: GameMode)
    requires other != mode
    ensures Load(Save(prefs, state, mode), other) == Load(prefs, other)
  {
    assert SavedGame(other) != SavedGame(mode) && SavedGame(other) != LastActiveMode;
  }

  /** After a save, the app reopens in the saved mode. */
  lemma LastModeAfterSave(prefs: Prefs, state: GameState, mode: GameMode)
    ensures LastMode(Save(prefs, state, mode)) == mode
  {
    ModeNameRoundTrip(mode);
  }

  /** A second save of the same mode replaces the first entirely. */
  lemma SaveOverwrites(prefs: Prefs, first: GameState, second: GameState, mode: GameMode)
    ensures Save(Save(prefs, first, mode), second, mode) == Save(prefs, second, mode)
  {
  }

  /** Saving does not touch the level counters. */
  lemma SaveKeepsLevels(prefs: Prefs, state: GameState, mode: GameMode, scope: LevelScope, d: int)
    ensures GetInt(Save(prefs, state, mode), LevelCount(scope), d) == GetInt(prefs, LevelCount(scope), d)
  {
  }

  /** A win raises only its own counter: another mode's counter, or in Casual another grid
      size's, keeps its value. */
  lemma IncrementIsolatesCounters(prefs: Prefs, m1: GameMode, d1: int, m2: GameMode, d2: int)
    ensures GetInt(IncrementLevel(prefs, LevelKey(m1, d1)), LevelKey(m2, d2), 0)
      == GetInt(prefs, LevelKey(m2, d2), 0) + (if m1 == m2 && (m1 == Casual ==> d1 == d2) then 1 else 0)
  {
    LevelScopeSeparate(m1, d1, m2, d2);
  }

  /** Counting a win does not touch any save. */
  lemma IncrementKeepsSaves(prefs: Prefs, scope: LevelScope, mode: GameMode)
    ensures Load(IncrementLevel(prefs, LevelCount(scope)), mode) == Load(prefs, mode)
  {
  }
}
