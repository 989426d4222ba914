/** The game's view model: one object holding the board, the status, the counters and the
    preferences store, with the player's and the timers' operations as methods. The delayed
    coroutine jobs are explicit step methods: RunShuffleJob and RunWinJob. */
module ViewModel {
  import opened GameModels
  import opened Permutations
  import opened Cycles
  import opened Modes
  import opened Palette
  import opened Board
  import opened Shuffle
  import opened Persistence

  /** Every game the store can load is a valid grid of its recorded side. */
  ghost predicate StoreValid(prefs: Prefs) {
    forall m :: Load(prefs, m).Some? ==> GridValid(Load(prefs, m).value.tiles, Load(prefs, m).value.gridDimension)
  }

  /** The shuffle source yields, for any seed, a permutation of the requested length. */
  ghost predicate ShufflerValid(shuffler: (int, nat) -> seq<int>) {
    forall seed, n :: |shuffler(seed, n)| == n && IsPermutation(shuffler(seed, n))
  }

  /** The order the shuffle source puts n movable tiles in, for the given seed. */
  function OrderFor(shuffler: (int, nat) -> seq<int>, seed: int, n: nat): (order: seq<int>)
    requires ShufflerValid(shuffler)
    ensures |order| == n && IsPermutation(order)
  {
    shuffler(seed, n)
  }

  /** Saving a valid grid keeps every loadable game valid. */
  lemma SaveKeepsStoreValid(prefs: Prefs, state: GameState, mode: GameMode)
    requires StoreValid(prefs) && GridValid(state.tiles, state.gridDimension)
    ensures StoreValid(Save(prefs, state, mode))
  {
    forall m | Load(Save(prefs, state, mode), m).Some?
      ensures GridValid(Load(Save(prefs, state, mode), m).value.tiles, Load(Save(prefs, state, mode), m).value.gridDimension)
    {
      if m == mode {
        LoadAfterSave(prefs, state, mode);
      } else {
        SaveIsolatesModes(prefs, state, mode, m);
      }
    }
  }

  /** Counting a win keeps every loadable game valid. */
  lemma IncrementKeepsStoreValid(prefs: Prefs, key: Key)
    requires StoreValid(prefs) && key.LevelCount?
    ensures StoreValid(IncrementLevel(prefs, key))
  {
    forall m ensures Load(IncrementLevel(prefs, key), m) == Load(prefs, m) {
      IncrementKeepsSaves(prefs, key.scope, m);
    }
  }

  /** A move that saves the board and then, when it solved the board, counts a win: the save
      loads back, and the level counter rises by one exactly when the board was solved. */
  lemma MoveRecorded(prefs: Prefs, state: GameState, mode: GameMode, dim: int, solved: bool)
    ensures var p := if solved then IncrementLevel(Save(prefs, state, mode), LevelKey(mode, dim))
                     else Save(prefs, state, mode);
      && Load(p, mode) == Some(state)
      && GetInt(p, LevelKey(mode, dim), 0) == GetInt(prefs, LevelKey(mode, dim), 0) + (if solved then 1 else 0)
  {
    LoadAfterSave(prefs, state, mode);
    SaveKeepsLevels(prefs, state, mode, LevelScopeFor(mode, dim), 0);
    if solved {
      IncrementKeepsSaves(Save(prefs, state, mode), LevelScopeFor(mode, dim), mode);
    }
  }

  /** Status after a swap's win check and move-limit check: a solved grid animates; in Ladder,
      once the limit is reached, an unsolved grid is lost unless it is already animating or won. */
  function StatusAfterSwap(before: GameStatus, solved: bool, limitReached: bool): (s: GameStatus)
    ensures solved ==> s == Animating
    ensures !solved && !limitReached ==> s == before
    ensures !solved && limitReached ==> s == (if before == Animating || before == Won then before else GameOver)
  {
    if solved then Animating
    else if limitReached && before != Animating && before != Won then GameOver
    else before
  }

  /** A fresh solved grid of the given side painted from the corners. */
  method FreshBoard(dim: int, corners: Corners) returns (tiles: seq<Tile>)
    requires dim >= 0
    ensures GridValid(tiles, dim) && IsSolved(tiles) && PositionsTracked(tiles)
    ensures |tiles| == dim * dim
    ensures forall i :: 0 <= i < |tiles| ==> tiles[i] == FreshTile(i, dim, corners)
  {
    tiles := BuildGrid(dim, corners);
    FreshGridValid(tiles, dim, corners);
  }

  /** The grid shuffleBoard produces when the movable tiles are put in the given order: a valid
      grid of the same side holding the same tiles. */
  function ShuffledGrid(tiles: seq<Tile>, dim: int, order: seq<int>): (r: seq<Tile>)
    requires GridValid(tiles, dim) && IsPermutation(order) && |order| == |Keep(tiles, false)|
    ensures GridValid(r, dim) && multiset(StripAll(r)) == multiset(StripAll(tiles))
  {
    ShuffleKeepsGrid(tiles, dim, order);
    Arrangement(tiles, dim, Reindex(Keep(tiles, false), order))
  }

  /** shuffleBoard: the movable tiles in the given order, placed around the fixed ones. */
  method ShuffleBoard(tiles: seq<Tile>, dim: int, order: seq<int>) returns (shuffled: seq<Tile>)
    requires GridValid(tiles, dim) && IsPermutation(order) && |order| == |Keep(tiles, false)|
    ensures shuffled == ShuffledGrid(tiles, dim, order)
  {
    var mutableTiles := Reindex(Keep(tiles, false), order);
    ShuffleKeepsGrid(tiles, dim, order);
    shuffled := Arrange(tiles, dim, mutableTiles);
  }

  /** The board after swapTiles(id1, id2): the tiles with those ids exchanged when both are
      present, the board unchanged otherwise. */
  function SwappedById(tiles: seq<Tile>, id1: int, id2: int): (r: seq<Tile>)
    ensures |r| == |tiles|
    ensures IndexOfId(tiles, id1) == -1 || IndexOfId(tiles, id2) == -1 ==> r == tiles
    ensures var i1, i2 := IndexOfId(tiles, id1), IndexOfId(tiles, id2);
      i1 != -1 && i2 != -1 ==>
        && r == SwapAt(tiles, i1, i2)
        && r[i1] == tiles[i2].(currentIdx := i1) && r[i2] == tiles[i1].(currentIdx := i2)
        && r[i1].id == id2 && r[i2].id == id1
        && (forall k :: 0 <= k < |tiles| && k != i1 && k != i2 ==> r[k] == tiles[k])
  {
    var i1, i2 := IndexOfId(tiles, id1), IndexOfId(tiles, id2);
    if i1 != -1 && i2 != -1 then SwapAt(tiles, i1, i2) else tiles
  }

  /** A swap by id keeps a valid grid valid and holding the same tiles. */
  lemma SwapByIdKeepsGrid(tiles: seq<Tile>, dim: int, id1: int, id2: int)
    requires GridValid(tiles, dim)
    ensures GridValid(SwappedById(tiles, id1, id2), dim)
    ensures multiset(StripAll(SwappedById(tiles, id1, id2))) == multiset(StripAll(tiles))
  {
    var i1, i2 := IndexOfId(tiles, id1), IndexOfId(tiles, id2);
    if i1 != -1 && i2 != -1 {
      SwapKeepsGrid(tiles, dim, i1, i2);
    }
  }

  class GameViewModel {
    var tiles: seq<Tile>
    var status: GameStatus
    var gridDimension: int
    var moves: int
    var selectedTileId: Option<int>
    var currentLevel: int
    var minMoves: int
    var gameMode: GameMode
    var currentCorners: Option<Corners>
    /** The pending shuffle job, if any, holding the seed it will shuffle with. */
    var shuffleJob: Option<int>
    /** Whether the win job the view model holds a handle to is still pending. */
    var winJob: bool
    /** Earlier win jobs whose handle was overwritten by a newer one; they still run. */
    var orphanedWinJobs: nat
    var prefs: Prefs
    /** What the level's seeded random stream yields for the palette. */
    const palette: int -> PaletteDraw
    /** The order the seeded shuffle puts n movable tiles in. */
    const shuffler: (int, nat) -> seq<int>

    /** Everything but the board: a consistent store, a sound shuffle source, a sane side. */
    ghost predicate Ready()
      reads this
    {
      StoreValid(prefs) && ShufflerValid(shuffler) && gridDimension >= 0
    }

    ghost predicate Valid()
      reads this
    {
      Ready() && GridValid(tiles, gridDimension)
    }

    /** The record saveGameState writes. */
    function Snapshot(): GameState
      reads this
    {
      GameState(tiles, status, gridDimension, moves, currentCorners, Some(minMoves), Some(gameMode))
    }

    /** init: reopen the last active mode's save, or start a fresh 4 x 4 Casual game. */
    constructor(prefs0: Prefs, palette0: int -> PaletteDraw, shuffler0: (int, nat) -> seq<int>)
      requires StoreValid(prefs0) && ShufflerValid(shuffler0)
      ensures Valid()
      ensures palette == palette0 && shuffler == shuffler0
      ensures Load(prefs0, LastMode(prefs0)).Some? ==>
        tiles == Load(prefs0, LastMode(prefs0)).value.tiles && prefs == prefs0
      ensures Load(prefs0, LastMode(prefs0)).None? ==>
        gameMode == Casual && gridDimension == 4 && status == Preview && shuffleJob.Some?
    {
      tiles := [];
      status := Menu;
      gridDimension := 4;
      moves := 0;
      selectedTileId := None;
      currentLevel := 1;
      minMoves := 0;
      gameMode := Casual;
      currentCorners := None;
      shuffleJob := None;
      winJob := false;
      orphanedWinJobs := 0;
      prefs := prefs0;
      palette := palette0;
      shuffler := shuffler0;
      new;
      var lastMode := LastMode(prefs);
      var loaded := LoadGameState(lastMode);
      if !loaded {
        StartNewGame(Some(4), Some(Casual), false);
      }
    }

    /** Writes the current game under the current mode's key and marks the mode last active. */
    method SaveGameState()
      requires Valid()
      modifies this`prefs
      ensures Valid()
      ensures prefs == Save(old(prefs), Snapshot(), gameMode)
    {
      SaveKeepsStoreValid(prefs, Snapshot(), gameMode);
      prefs := Save(prefs, Snapshot(), gameMode);
    }

    /** Restores the target mode's save, if there is one that parses. A missing minMoves reads
        as 0 and a missing mode as the target; the level is read from the restored mode's
        counter. The selection and pending jobs are left as they were. */
    method LoadGameState(targetMode: GameMode) returns (ok: bool)
      requires Ready()
      modifies this`tiles, this`status, this`gridDimension, this`moves, this`currentCorners,
        this`minMoves, this`gameMode, this`currentLevel
      ensures Ready()
      ensures ok <==> Load(prefs, targetMode).Some?
      ensures !ok ==> unchanged(this)
      ensures ok ==> Valid()
      ensures ok ==> var st := Load(prefs, targetMode).value;
        && tiles == st.tiles && status == st.status && gridDimension == st.gridDimension
        && moves == st.moves && currentCorners == st.corners
        && minMoves == st.minMoves.GetOr(0) && gameMode == st.gameMode.GetOr(targetMode)
        && currentLevel == GetInt(prefs, LevelKey(gameMode, gridDimension), 0) + 1
    {
      var state := Load(prefs, targetMode);
      if state.None? {
        return false;
      }
      var st := state.value;
      tiles := st.tiles;
      status := st.status;
      gridDimension := st.gridDimension;
      moves := st.moves;
      currentCorners := st.corners;
      minMoves := st.minMoves.GetOr(0);
      gameMode := st.gameMode.GetOr(targetMode);
      var savedLevel := GetInt(prefs, LevelKey(gameMode, st.gridDimension), 0);
      currentLevel := savedLevel + 1;
      return true;
    }

    /** Starts a level: optional new side and mode, the level from the mode's counter, both jobs
        cancelled, the status reset, the corners from the level seed (or kept), a fresh solved
        grid, a save, and a shuffle scheduled on the derived seed. */
    method StartNewGame(dimension: Option<int>, mode: Option<GameMode>, preserveColors: bool)
      requires Ready() && (dimension.Some? ==> dimension.value >= 0)
      modifies this`gridDimension, this`gameMode, this`currentLevel, this`shuffleJob, this`winJob,
        this`status, this`moves, this`minMoves, this`selectedTileId, this`currentCorners, this`tiles,
        this`prefs
      ensures Valid()
      ensures gridDimension == dimension.GetOr(old(gridDimension)) && gameMode == mode.GetOr(old(gameMode))
      ensures currentLevel == GetInt(old(prefs), LevelKey(gameMode, gridDimension), 0) + 1
      ensures status == Preview && moves == 0 && minMoves == 0 && selectedTileId == None
      ensures !winJob
      ensures shuffleJob == Some(ShuffleSeed(LevelSeed(gameMode, currentLevel)))
      ensures currentCorners.Some?
      ensures preserveColors && old(currentCorners).Some? ==> currentCorners == old(currentCorners)
      ensures !(preserveColors && old(currentCorners).Some?) ==>
        currentCorners == Some(RotateCorners(palette(LevelSeed(gameMode, currentLevel))))
      ensures |tiles| == gridDimension * gridDimension
      ensures forall i :: 0 <= i < |tiles| ==> tiles[i] == FreshTile(i, gridDimension, currentCorners.value)
      ensures IsSolved(tiles) && PositionsTracked(tiles)
      ensures prefs == Save(old(prefs), Snapshot(), gameMode)
    {
      BeginLevel(dimension, mode);
      var corners := ChooseCorners(preserveColors);
      var newTiles := FreshBoard(gridDimension, corners);
      tiles := newTiles;
      SaveGameState();
      shuffleJob := Some(ShuffleSeed(LevelSeed(gameMode, currentLevel)));
    }

    /** The bookkeeping half of startNewGame: side, mode, level, jobs and counters. */
    method BeginLevel(dimension: Option<int>, mode: Option<GameMode>)
      requires Ready() && (dimension.Some? ==> dimension.value >= 0)
      modifies this`gridDimension, this`gameMode, this`currentLevel, this`shuffleJob, this`winJob,
        this`status, this`moves, this`minMoves, this`selectedTileId
      ensures Ready()
      ensures gridDimension == dimension.GetOr(old(gridDimension)) && gameMode == mode.GetOr(old(gameMode))
      ensures currentLevel == GetInt(prefs, LevelKey(gameMode, gridDimension), 0) + 1
      ensures status == Preview && moves == 0 && minMoves == 0 && selectedTileId == None
      ensures !winJob && shuffleJob == None
    {
      if dimension.Some? {
        gridDimension := dimension.value;
      }
      if mode.Some? {
        gameMode := mode.value;
      }
      var savedLevel := GetInt(prefs, LevelKey(gameMode, gridDimension), 0);
      currentLevel := savedLevel + 1;
      shuffleJob := None;
      winJob := false;
      status := Preview;
      moves := 0;
      minMoves := 0;
      selectedTileId := None;
    }

    /** Keeps the current corners when asked to and there are some; otherwise paints the level's. */
    method ChooseCorners(preserveColors: bool) returns (corners: Corners)
      modifies this`currentCorners
      ensures currentCorners == Some(corners)
      ensures preserveColors && old(currentCorners).Some? ==> currentCorners == old(currentCorners)
      ensures !(preserveColors && old(currentCorners).Some?) ==>
        corners == RotateCorners(palette(LevelSeed(gameMode, currentLevel)))
    {
      if preserveColors && currentCorners.Some? {
        corners := currentCorners.value;
      } else {
        corners := RotateCorners(palette(LevelSeed(gameMode, currentLevel)));
        currentCorners := Some(corners);
      }
    }

    /** The shuffle job, once its delay has passed: shuffle the movable tiles with the job's
        seed, rebuild the grid around the fixed corners, recompute the minimum move count, start
        play and save. It acts on whatever board is current when it runs. */
    method RunShuffleJob()
      requires Valid() && shuffleJob.Some?
      modifies this`shuffleJob, this`tiles, this`minMoves, this`status, this`prefs
      ensures Valid()
      ensures tiles == old(ShuffledGrid(tiles, gridDimension, OrderFor(shuffler, shuffleJob.value, |Keep(tiles, false)|)))
      ensures minMoves == |tiles| - CycleCount(CorrectIds(tiles))
      ensures status == Playing && shuffleJob == None
      ensures prefs == Save(old(prefs), Snapshot(), gameMode)
    {
      var seed := shuffleJob.value;
      shuffleJob := None;
      var order := OrderFor(shuffler, seed, |Keep(tiles, false)|);
      var shuffled := ShuffleBoard(tiles, gridDimension, order);
      tiles := shuffled;
      minMoves := CalculateMinMoves(shuffled);
      status := Playing;
      SaveGameState();
    }

    /** The win check: a board whose every position holds its own tile starts the win animation,
        counts the win under the level key and launches a win job; a pending earlier job is no
        longer referenced but still runs. */
    method CheckWinCondition()
      requires Valid()
      modifies this`status, this`prefs, this`winJob, this`orphanedWinJobs
      ensures Valid()
      ensures IsSolved(tiles) ==>
        && status == Animating && winJob
        && prefs == IncrementLevel(old(prefs), LevelKey(gameMode, gridDimension))
        && orphanedWinJobs == old(orphanedWinJobs) + (if old(winJob) then 1 else 0)
      ensures !IsSolved(tiles) ==>
        && status == old(status) && prefs == old(prefs)
        && winJob == old(winJob) && orphanedWinJobs == old(orphanedWinJobs)
      ensures Load(prefs, gameMode) == Load(old(prefs), gameMode)
    {
      IncrementKeepsSaves(prefs, LevelScopeFor(gameMode, gridDimension), gameMode);
      if IsSolved(tiles) {
        status := Animating;
        IncrementKeepsStoreValid(prefs, LevelKey(gameMode, gridDimension));
        prefs := IncrementLevel(prefs, LevelKey(gameMode, gridDimension));
        if winJob {
          orphanedWinJobs := orphanedWinJobs + 1;
        }
        winJob := true;
      }
    }

    /** A win job whose delay has passed: the game is won and saved. The job is either the one
        the view model references or an orphaned earlier one. */
    method RunWinJob(orphan: bool)
      requires Valid() && (if orphan then orphanedWinJobs > 0 else winJob)
      modifies this`status, this`prefs, this`winJob, this`orphanedWinJobs
      ensures Valid()
      ensures status == Won && prefs == Save(old(prefs), Snapshot(), gameMode)
      ensures orphan ==> orphanedWinJobs == old(orphanedWinJobs) - 1 && winJob == old(winJob)
      ensures !orphan ==> orphanedWinJobs == old(orphanedWinJobs) && !winJob
    {
      if orphan {
        orphanedWinJobs := orphanedWinJobs - 1;
      } else {
        winJob := false;
      }
      status := Won;
      SaveGameState();
    }

    /** What swapTiles(id1, id2) leaves behind, given the board, move count, status, store and win
        jobs it started from. Unknown ids change nothing. Otherwise the tiles are exchanged and the
        move counted; the store holds the saved board (with its status from before the win check)
        plus one more win on the level counter when the swap solved the board, or the final board
        when it did not. */
    ghost predicate SwapOutcome(tiles0: seq<Tile>, moves0: int, status0: GameStatus, prefs0: Prefs,
                                winJob0: bool, orphans0: nat, id1: int, id2: int)
      reads this
    {
      && tiles == SwappedById(tiles0, id1, id2)
      && (IndexOfId(tiles0, id1) == -1 || IndexOfId(tiles0, id2) == -1 ==>
            && moves == moves0 && status == status0 && prefs == prefs0
            && winJob == winJob0 && orphanedWinJobs == orphans0)
      && (IndexOfId(tiles0, id1) != -1 && IndexOfId(tiles0, id2) != -1 ==>
            && moves == moves0 + 1
            && status == StatusAfterSwap(status0, IsSolved(tiles), gameMode == Ladder && moves >= LadderMoveLimit)
            && prefs == (if IsSolved(tiles)
                         then IncrementLevel(Save(prefs0, Snapshot().(status := status0), gameMode), LevelKey(gameMode, gridDimension))
                         else Save(prefs0, Snapshot(), gameMode))
            && (IsSolved(tiles) ==> winJob && orphanedWinJobs == orphans0 + (if winJob0 then 1 else 0))
            && (!IsSolved(tiles) ==> winJob == winJob0 && orphanedWinJobs == orphans0))
    }

    /** swapTiles: exchanges the tiles with the two ids (in any status), counts a move, saves,
        then runs the win check; in Ladder, from the move limit on, an unsolved board that is
        neither animating nor won is lost and saved again. Unknown ids change nothing. The save
        precedes the win check, so a winning swap is saved with the status it had before. */
    method SwapTiles(id1: int, id2: int)
      requires Valid()
      modifies this`tiles, this`moves, this`status, this`prefs, this`winJob, this`orphanedWinJobs
      ensures Valid()
      ensures SwapOutcome(old(tiles), old(moves), old(status), old(prefs), old(winJob), old(orphanedWinJobs), id1, id2)
      ensures IndexOfId(old(tiles), id1) != -1 && IndexOfId(old(tiles), id2) != -1 ==>
        && GetInt(prefs, LevelKey(gameMode, gridDimension), 0)
           == GetInt(old(prefs), LevelKey(gameMode, gridDimension), 0) + (if IsSolved(tiles) then 1 else 0)
        && Load(prefs, gameMode) == Some(Snapshot().(status := if IsSolved(tiles) then old(status) else status))
    {
      var idx1 := IndexOfId(tiles, id1);
      var idx2 := IndexOfId(tiles, id2);
      if idx1 != -1 && idx2 != -1 {
        ghost var prefs0 := prefs;
        ApplySwap(idx1, idx2);
        ghost var saved := Snapshot();
        FinishSwap();
        SaveOverwrites(prefs0, saved, Snapshot(), gameMode);
        MoveRecorded(prefs0, saved, gameMode, gridDimension, IsSolved(tiles));
      }
    }

    /** The first half of swapTiles: exchange the two positions, count the move, save. */
    method ApplySwap(idx1: int, idx2: int)
      requires Valid() && 0 <= idx1 < |tiles| && 0 <= idx2 < |tiles|
      modifies this`tiles, this`moves, this`prefs
      ensures Valid()
      ensures tiles == SwapAt(old(tiles), idx1, idx2) && moves == old(moves) + 1
      ensures prefs == Save(old(prefs), Snapshot(), gameMode)
      ensures Load(prefs, gameMode) == Some(Snapshot())
      ensures GetInt(prefs, LevelKey(gameMode, gridDimension), 0) == GetInt(old(prefs), LevelKey(gameMode, gridDimension), 0)
    {
      SwapKeepsGrid(tiles, gridDimension, idx1, idx2);
      moves := moves + 1;
      CommitBoard(SwapAt(tiles, idx1, idx2));
    }

    /** The second half of swapTiles: the win check, then in Ladder the move-limit verdict. */
    method FinishSwap()
      requires Valid() && Load(prefs, gameMode) == Some(Snapshot())
      modifies this`status, this`prefs, this`winJob, this`orphanedWinJobs
      ensures Valid()
      ensures status == StatusAfterSwap(old(status), IsSolved(tiles), gameMode == Ladder && moves >= LadderMoveLimit)
      ensures GetInt(prefs, LevelKey(gameMode, gridDimension), 0)
           == GetInt(old(prefs), LevelKey(gameMode, gridDimension), 0) + (if IsSolved(tiles) then 1 else 0)
      ensures Load(prefs, gameMode) == Some(Snapshot().(status := if IsSolved(tiles) then old(status) else status))
      ensures prefs == (if IsSolved(tiles) then IncrementLevel(old(prefs), LevelKey(gameMode, gridDimension))
        else if gameMode == Ladder && moves >= LadderMoveLimit && old(status) != Animating && old(status) != Won
        then Save(old(prefs), Snapshot(), gameMode)
        else old(prefs))
      ensures IsSolved(tiles) ==> winJob && orphanedWinJobs == old(orphanedWinJobs) + (if old(winJob) then 1 else 0)
      ensures !IsSolved(tiles) ==> winJob == old(winJob) && orphanedWinJobs == old(orphanedWinJobs)
    {
      if gameMode == Ladder && moves >= LadderMoveLimit {
        CheckWinCondition();
        LoseUnlessWon();
        return;
      }
      CheckWinCondition();
    }

    /** Publishes a new board of the same side and saves the game. */
    method CommitBoard(newTiles: seq<Tile>)
      requires Valid() && GridValid(newTiles, gridDimension)
      modifies this`tiles, this`prefs
      ensures Valid() && tiles == newTiles
      ensures prefs == Save(old(prefs), Snapshot(), gameMode)
      ensures Load(prefs, gameMode) == Some(Snapshot())
      ensures GetInt(prefs, LevelKey(gameMode, gridDimension), 0) == GetInt(old(prefs), LevelKey(gameMode, gridDimension), 0)
    {
      tiles := newTiles;
      SaveKeepsLevels(prefs, Snapshot(), gameMode, LevelScopeFor(gameMode, gridDimension), 0);
      LoadAfterSave(prefs, Snapshot(), gameMode);
      SaveGameState();
    }

    /** The move-limit verdict after the win check: anything but an animating or won game is
        over, and saved as such. */
    method LoseUnlessWon()
      requires Valid()
      modifies this`status, this`prefs
      ensures Valid()
      ensures status == (if old(status) == Animating || old(status) == Won then old(status) else GameOver)
      ensures old(status) == Animating || old(status) == Won ==> prefs == old(prefs)
      ensures old(status) != Animating && old(status) != Won ==>
        prefs == Save(old(prefs), Snapshot(), gameMode) && Load(prefs, gameMode) == Some(Snapshot())
      ensures GetInt(prefs, LevelKey(gameMode, gridDimension), 0) == GetInt(old(prefs), LevelKey(gameMode, gridDimension), 0)
    {
      if status != Animating && status != Won {
        status := GameOver;
        SaveKeepsLevels(prefs, Snapshot(), gameMode, LevelScopeFor(gameMode, gridDimension), 0);
        LoadAfterSave(prefs, Snapshot(), gameMode);
        SaveGameState();
      }
    }

    /** selectTile: only while playing and only movable tiles; the first pick is remembered,
        picking it again clears it, and picking another tile swaps the two and clears it. */
    method SelectTile(tile: Tile)
      requires Valid()
      modifies this`selectedTileId, this`tiles, this`moves, this`status, this`prefs, this`winJob,
        this`orphanedWinJobs
      ensures Valid()
      ensures old(status) != Playing || tile.isFixed ==> unchanged(this)
      ensures old(status) == Playing && !tile.isFixed ==> match old(selectedTileId)
        case None =>
          && selectedTileId == Some(tile.id) && tiles == old(tiles) && moves == old(moves)
          && status == old(status) && prefs == old(prefs)
          && winJob == old(winJob) && orphanedWinJobs == old(orphanedWinJobs)
        case Some(current) =>
          && selectedTileId == None
          && (current == tile.id ==>
                && tiles == old(tiles) && moves == old(moves) && status == old(status) && prefs == old(prefs)
                && winJob == old(winJob) && orphanedWinJobs == old(orphanedWinJobs))
          && (current != tile.id ==>
                SwapOutcome(old(tiles), old(moves), old(status), old(prefs), old(winJob), old(orphanedWinJobs), current, tile.id))
    {
      if status != Playing || tile.isFixed {
        return;
      }
      match selectedTileId
      case Some(current) =>
        if current == tile.id {
          selectedTileId := None;
        } else {
          SwapTiles(current, tile.id);
          selectedTileId := None;
        }
      case None =>
        selectedTileId := Some(tile.id);
    }

    /** useHint: while playing outside Ladder, moves the first misplaced movable tile home by
        swapping, without counting a move, then saves and runs the win check. */
    method UseHint()
      requires Valid()
      modifies this`tiles, this`status, this`prefs, this`winJob, this`orphanedWinJobs
      ensures Valid()
      ensures old(status) != Playing || gameMode == Ladder || FirstMisplaced(old(tiles)) == -1 ==> unchanged(this)
      ensures old(status) == Playing && gameMode != Ladder && FirstMisplaced(old(tiles)) >= 0 ==>
        && tiles == HintStep(old(tiles))
        && CountCorrect(tiles, |tiles|) > CountCorrect(old(tiles), |tiles|)
        && status == (if IsSolved(tiles) then Animating else Playing)
        && prefs == (if IsSolved(tiles)
                     then IncrementLevel(Save(old(prefs), Snapshot().(status := Playing), gameMode), LevelKey(gameMode, gridDimension))
                     else Save(old(prefs), Snapshot(), gameMode))
        && Load(prefs, gameMode) == Some(Snapshot().(status := Playing))
        && GetInt(prefs, LevelKey(gameMode, gridDimension), 0)
           == GetInt(old(prefs), LevelKey(gameMode, gridDimension), 0) + (if IsSolved(tiles) then 1 else 0)
        && (IsSolved(tiles) ==> winJob && orphanedWinJobs == old(orphanedWinJobs) + (if old(winJob) then 1 else 0))
        && (!IsSolved(tiles) ==> winJob == old(winJob) && orphanedWinJobs == old(orphanedWinJobs))
    {
      if status != Playing {
        return;
      }
      if gameMode == Ladder {
        return;
      }
      var wrongTileIndex := FirstMisplaced(tiles);
      if wrongTileIndex != -1 {
        ApplyHint(wrongTileIndex);
        ghost var saved := Snapshot();
        CheckWinCondition();
        assert Snapshot().(status := Playing) == saved;
        MoveRecorded(old(prefs), saved, gameMode, gridDimension, IsSolved(tiles));
      }
    }

    /** The hint's move: the misplaced tile found first swaps with whatever sits on its home,
        and the board is saved. */
    method ApplyHint(wrongTileIndex: int)
      requires Valid() && 0 <= wrongTileIndex && wrongTileIndex == FirstMisplaced(tiles)
      modifies this`tiles, this`prefs
      ensures Valid()
      ensures tiles == HintStep(old(tiles))
      ensures CountCorrect(tiles, |tiles|) > CountCorrect(old(tiles), |tiles|)
      ensures prefs == Save(old(prefs), Snapshot(), gameMode)
      ensures Load(prefs, gameMode) == Some(Snapshot())
    {
      HintImproves(tiles, gridDimension);
      var targetIdx := tiles[wrongTileIndex].correctId;
      CommitBoard(SwapAt(tiles, wrongTileIndex, targetIdx));
    }

    /** goToMenu: leaves for the menu unless the game is over. */
    method GoToMenu()
      modifies this`status
      ensures status == (if old(status) == GameOver then GameOver else Menu)
    {
      if status != GameOver {
        status := Menu;
      }
    }

    /** resumeGame: back to play when there is a board and the game is neither won nor over. */
    method ResumeGame()
      modifies this`status
      ensures status == (if |tiles| > 0 && old(status) != Won && old(status) != GameOver then Playing else old(status))
    {
      if |tiles| > 0 && status != Won && status != GameOver {
        status := Playing;
      }
    }

    /** playOrResumeGame: saves the current board (if any) under its mode, then resumes the
        target mode's save (a save in the menu resumes as playing) or, without one, starts a new
        game of that mode and size. */
    method PlayOrResumeGame(mode: GameMode, size: int)
      requires Valid() && size >= 0
      modifies this`gridDimension, this`gameMode, this`currentLevel, this`shuffleJob, this`winJob,
        this`status, this`moves, this`minMoves, this`selectedTileId, this`currentCorners, this`tiles,
        this`prefs
      ensures Valid()
      ensures var saved := if |old(tiles)| > 0 then Save(old(prefs), old(Snapshot()), old(gameMode)) else old(prefs);
        && (Load(saved, mode).Some? ==> var st := Load(saved, mode).value;
              && prefs == saved && tiles == st.tiles && gridDimension == st.gridDimension
              && moves == st.moves && currentCorners == st.corners && minMoves == st.minMoves.GetOr(0)
              && gameMode == st.gameMode.GetOr(mode)
              && currentLevel == GetInt(saved, LevelKey(gameMode, gridDimension), 0) + 1
              && status == (if st.status == Menu then Playing else st.status)
              && selectedTileId == old(selectedTileId) && shuffleJob == old(shuffleJob) && winJob == old(winJob))
        && (Load(saved, mode).None? ==>
              && gameMode == mode && gridDimension == size
              && currentLevel == GetInt(saved, LevelKey(mode, size), 0) + 1
              && status == Preview && moves == 0 && minMoves == 0 && selectedTileId == None && !winJob
              && currentCorners == Some(RotateCorners(palette(LevelSeed(mode, currentLevel))))
              && |tiles| == size * size
              && (forall i :: 0 <= i < |tiles| ==> tiles[i] == FreshTile(i, size, currentCorners.value))
              && shuffleJob == Some(ShuffleSeed(LevelSeed(mode, currentLevel)))
              && prefs == Save(saved, Snapshot(), mode))
    {
      if |tiles| > 0 {
        SaveGameState();
      }
      var loaded := LoadGameState(mode);
      if loaded {
        if status == Menu {
          status := Playing;
        }
      } else {
        StartNewGame(Some(size), Some(mode), false);
      }
    }
  }
}
