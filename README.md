# Sortue puzzle engine in Dafny

Sortue is a colour-sorting puzzle for Android. A square grid of `dim x dim` tiles shows a
gradient painted bilinearly from four corner colours. The four corner tiles are fixed anchors.
The game shuffles the other tiles, and the player restores the gradient by selecting two tiles to
swap them. A hint moves one misplaced tile home. The game keeps one saved game per mode
(Casual, Ladder, Challenge) and a level counter per mode; in Casual the counter is per grid size.
Ladder allows 200 moves per level and gives no hints. The minimum move count shown to the player is
the number of tiles minus the number of cycles of the permutation "position -> home of the tile
there". A separate rate manager counts app launches and prompts for a review once a threshold
is reached.

This project models three parts of the app:

- the view model: the class `ViewModel.GameViewModel`, with the board, the status, the counters,
  the pending jobs and the preferences store as fields, and the player's and the timers' operations
  as methods;
- the value types and the colour interpolation (`GameModels`);
- the rate manager's launch counter (`Rate.RateManager`).

The supporting modules are:

- `Board`: the grid builder, swaps, the hint search and the win test;
- `Shuffle`: the array-based rebuild of a shuffled grid;
- `Cycles`: the visited-array cycle count and the cycle theory behind it;
- `Persistence`: the preferences store as a map;
- `Modes`: modes, level keys and seeds;
- `Palette`: the corner rotation table;
- `Permutations`: permutation facts.

Randomness is a parameter of the view model:

- `palette` maps a level seed to the four sampled colours and a rotation;
- `shuffler` maps a seed and a count to a permutation of the movable tiles.

Both delayed coroutine jobs become explicit step methods:

- `RunShuffleJob`, for the shuffle 2.5 s after a level starts;
- `RunWinJob`, for the win 2 s after the solving move.

The rate popup's delayed job becomes `DeliverPopup`.

Behaviour modelled as the code does it:

- `swapTiles` does not look at the status;
- swapping a tile with itself still counts a move;
- a hint never counts a move;
- the level counter goes up when the win animation starts, not when the game is won;
- a winning swap is saved with the status it had before the win check;
- loading a game keeps the selection and any pending shuffle job;
- launching a new win job drops the reference to a pending one, which still runs (`orphanedWinJobs`);
- nothing cancels a scheduled rate popup.

## Model

Source paths are relative to the repository root.

| member | source | states |
|---|---|---|
| GameModels.SimilarReflexive | app/src/main/java/com/akinalpfdn/sortue/models/GameModels.kt:19-24 | every colour is similar to itself |
| GameModels.SimilarSymmetric | app/src/main/java/com/akinalpfdn/sortue/models/GameModels.kt:19-24 | similarity does not depend on argument order |
| GameModels.SimilarNotTransitive | app/src/main/java/com/akinalpfdn/sortue/models/GameModels.kt:19-24 | with the strict 0.05 tolerance, two similar pairs need not make the outer pair similar |
| GameModels.Lerp | app/src/main/java/com/akinalpfdn/sortue/models/GameModels.kt:89-91 | the blend is start at t = 0, end at t = 1, and lies between them for t in [0, 1] |
| GameModels.LerpOffset | app/src/main/java/com/akinalpfdn/sortue/models/GameModels.kt:89-91 | the blend equals start plus the fraction t of the gap, and that offset stays within the gap for t in [0, 1] |
| GameModels.Span | app/src/main/java/com/akinalpfdn/sortue/models/GameModels.kt:68-69 | the divisor max(1, length - 1) is at least 1, and is length - 1 once the axis has two cells |
| GameModels.Fraction | app/src/main/java/com/akinalpfdn/sortue/models/GameModels.kt:68-69 | the coordinate fraction is 0 on the first cell, 1 on the last, and in [0, 1] for in-range cells |
| GameModels.Bilinear | app/src/main/java/com/akinalpfdn/sortue/models/GameModels.kt:71-86 | for u, v in [0, 1] a blended channel lies between the least and the greatest corner channel |
| GameModels.Interpolated | app/src/main/java/com/akinalpfdn/sortue/models/GameModels.kt:61-87 | the four corner cells get exactly tl, tr, bl and br, and every in-range cell stays within the corners' channel ranges |
| Modes.ModeFromName | app/src/main/java/com/akinalpfdn/sortue/viewmodels/GameViewModel.kt:59-60 | a mode parsed from a name has exactly that name; other names parse to nothing (the fallback to Casual) |
| Modes.ModeNameRoundTrip | app/src/main/java/com/akinalpfdn/sortue/viewmodels/GameViewModel.kt:59-60 | every mode's stored name parses back to that mode |
| Modes.LevelScopeFor | app/src/main/java/com/akinalpfdn/sortue/viewmodels/GameViewModel.kt:137-141 | the counter is per grid size exactly in Casual, and then for the current size; Ladder and Challenge each have their own counter |
| Modes.LevelScopeSeparate | app/src/main/java/com/akinalpfdn/sortue/viewmodels/GameViewModel.kt:137-141 | two games share a level counter if and only if they are in the same mode and, in Casual, on the same grid size |
| Modes.LevelScopeIgnoresSizeOutsideCasual | app/src/main/java/com/akinalpfdn/sortue/viewmodels/GameViewModel.kt:137-141 | outside Casual the grid size does not change the level key |
| Modes.LevelSeedInjective | app/src/main/java/com/akinalpfdn/sortue/viewmodels/GameViewModel.kt:156-161 | below level 10000, two levels get the same seed if and only if they have the same mode and level |
| Modes.LevelSeedOverlap | app/src/main/java/com/akinalpfdn/sortue/viewmodels/GameViewModel.kt:156-161 | Casual level 10001 gets the same seed as Ladder level 1 |
| Palette.Deal | app/src/main/java/com/akinalpfdn/sortue/viewmodels/GameViewModel.kt:349-354 | each rotation deals c1..c4 to the four corners as a permutation |
| Palette.RotateCorners | app/src/main/java/com/akinalpfdn/sortue/viewmodels/GameViewModel.kt:342-356 | corner j receives the sampled colour that the rotation deals to it |
| Palette.RotationUsesEveryColour | app/src/main/java/com/akinalpfdn/sortue/viewmodels/GameViewModel.kt:349-356 | under any rotation every sampled colour appears on some corner |
| Palette.RotationsAreQuarterTurns | app/src/main/java/com/akinalpfdn/sortue/viewmodels/GameViewModel.kt:349-354 | rotation r + 1 is rotation r turned a quarter clockwise, cyclically (the "Rotated 90/180/270" labels) |
| Palette.FourQuarterTurns | app/src/main/java/com/akinalpfdn/sortue/viewmodels/GameViewModel.kt:349-354 | four quarter turns give back any corner assignment |
| Palette.LightestCorner | app/src/main/java/com/akinalpfdn/sortue/viewmodels/GameViewModel.kt:349-354 | the lightest colour sits top-left, top-right, bottom-right and bottom-left under rotations 0 to 3 |
| Board.FlatUnique | app/src/main/java/com/akinalpfdn/sortue/viewmodels/GameViewModel.kt:177-198 | two in-row cells with the same row-major index are the same cell |
| Board.CornerFlat | app/src/main/java/com/akinalpfdn/sortue/viewmodels/GameViewModel.kt:180-185 | the explicit four-way corner test holds exactly at the four corner indices |
| Board.CornerCount | app/src/main/java/com/akinalpfdn/sortue/viewmodels/GameViewModel.kt:180-185 | there are exactly 4 corner indices from side 2 on, and one at side 1 |
| Board.FreshTileAtCell | app/src/main/java/com/akinalpfdn/sortue/viewmodels/GameViewModel.kt:185-196 | the tile built for cell (x, y) has that cell's interpolated colour and is fixed exactly at a corner |
| Board.BuildGrid | app/src/main/java/com/akinalpfdn/sortue/viewmodels/GameViewModel.kt:173-200 | the nested loops build dim^2 tiles; tile i has id = correctId = currentIdx = i, cell (x, y) at y*dim + x has its interpolated colour and is fixed exactly at a corner; no tiles for dim <= 0 |
| Board.FreshGridValid | app/src/main/java/com/akinalpfdn/sortue/viewmodels/GameViewModel.kt:173-200 | a fresh grid is a valid permutation grid, is already solved and tracks positions |
| Board.IndexOfId | app/src/main/java/com/akinalpfdn/sortue/viewmodels/GameViewModel.kt:420-421 | the first index holding the id, or -1 exactly when no tile has it |
| Board.SwapAt | app/src/main/java/com/akinalpfdn/sortue/viewmodels/GameViewModel.kt:424-428 | exchanges two positions, renumbers their currentIdx, and leaves every other tile as it was |
| Board.SwapKeepsGrid | app/src/main/java/com/akinalpfdn/sortue/viewmodels/GameViewModel.kt:418-430 | a swap keeps the grid valid and holds the same tiles |
| Board.SwapTwice | app/src/main/java/com/akinalpfdn/sortue/viewmodels/GameViewModel.kt:424-428 | on a position-tracking grid, swapping the same pair twice restores the board |
| Board.SwapTracksPositions | app/src/main/java/com/akinalpfdn/sortue/viewmodels/GameViewModel.kt:426-428 | after a swap every tile's currentIdx still names its position |
| Board.IndexOfTile | app/src/main/java/com/akinalpfdn/sortue/viewmodels/GameViewModel.kt:460-462 | indexOf: the first position holding an equal tile, or -1 exactly when there is none |
| Board.IndexOfDistinct | app/src/main/java/com/akinalpfdn/sortue/viewmodels/GameViewModel.kt:460-462 | with distinct ids, indexOf finds each tile at its own position |
| Board.FirstMisplaced | app/src/main/java/com/akinalpfdn/sortue/viewmodels/GameViewModel.kt:460-462 | the first position whose tile is movable and away from home, or -1 exactly when there is none |
| Board.MisplacedInGrid | app/src/main/java/com/akinalpfdn/sortue/viewmodels/GameViewModel.kt:460-462 | on a valid grid the hint's test is "movable and correctId differs from the position" |
| Board.HintStep | app/src/main/java/com/akinalpfdn/sortue/viewmodels/GameViewModel.kt:464-475 | the first misplaced tile is swapped onto its home, which then holds it; the board is unchanged when nothing is misplaced |
| Board.CountCorrectFull | app/src/main/java/com/akinalpfdn/sortue/viewmodels/GameViewModel.kt:483-485 | every position counts as correct if and only if the win test holds |
| Board.CountCorrectGrows | app/src/main/java/com/akinalpfdn/sortue/viewmodels/GameViewModel.kt:469-473 | swapping two wrong positions so that one becomes right raises the count of correct positions |
| Board.HintImproves | app/src/main/java/com/akinalpfdn/sortue/viewmodels/GameViewModel.kt:464-475 | a hint keeps the grid valid, holds the same tiles, and strictly raises the number of tiles at home |
| Board.NoHintLeft | app/src/main/java/com/akinalpfdn/sortue/viewmodels/GameViewModel.kt:460-464 | when the hint finds nothing, every movable tile is at home |
| Board.SolvedHasNoHint | app/src/main/java/com/akinalpfdn/sortue/viewmodels/GameViewModel.kt:460-464 | a solved grid offers no hint |
| Board.WinIffNoMovesNeeded | app/src/main/java/com/akinalpfdn/sortue/viewmodels/GameViewModel.kt:481-556 | the win test holds if and only if the minimum move count is 0 |
| Shuffle.Keep | app/src/main/java/com/akinalpfdn/sortue/viewmodels/GameViewModel.kt:365-366 | the filter keeps only tiles of the requested fixedness |
| Shuffle.Placed | app/src/main/java/com/akinalpfdn/sortue/viewmodels/GameViewModel.kt:375-377 | a slot holds a fixed tile whose home it is, and stays empty exactly when no fixed tile lives there |
| Shuffle.PlaceFixed | app/src/main/java/com/akinalpfdn/sortue/viewmodels/GameViewModel.kt:375-377 | the loop writes every fixed tile into the slot of its correctId |
| Shuffle.FillHoles | app/src/main/java/com/akinalpfdn/sortue/viewmodels/GameViewModel.kt:380-389 | the mutIdx loop fills the empty slots in order with the shuffled tiles, renumbering currentIdx |
| Shuffle.FilterNotNull | app/src/main/java/com/akinalpfdn/sortue/viewmodels/GameViewModel.kt:391 | with no empty slot left, the list is the slots' tiles in order |
| Shuffle.Arrange | app/src/main/java/com/akinalpfdn/sortue/viewmodels/GameViewModel.kt:372-391 | the array rebuild computes the arrangement of fixed tiles and shuffled movable tiles |
| Shuffle.FixedTileCount | app/src/main/java/com/akinalpfdn/sortue/viewmodels/GameViewModel.kt:365-366 | a valid grid of side at least 2 has exactly 4 fixed and dim^2 - 4 movable tiles; a 1 x 1 grid has one fixed tile |
| Shuffle.FreshFixedCount | app/src/main/java/com/akinalpfdn/sortue/viewmodels/GameViewModel.kt:173-200 | the grid a new level builds has exactly 4 fixed tiles once its side is at least 2 |
| Shuffle.HolesMatchMovables | app/src/main/java/com/akinalpfdn/sortue/viewmodels/GameViewModel.kt:372-389 | after the fixed tiles are placed, the number of empty slots is the number of movable tiles |
| Shuffle.ArrangedCells | app/src/main/java/com/akinalpfdn/sortue/viewmodels/GameViewModel.kt:372-391 | corner slots hold their own fixed tile; every other slot holds the next shuffled tile, renumbered |
| Shuffle.ArrangedCorners | app/src/main/java/com/akinalpfdn/sortue/viewmodels/GameViewModel.kt:374-377 | every fixed tile ends at index correctId |
| Shuffle.ArrangedDistinct | app/src/main/java/com/akinalpfdn/sortue/viewmodels/GameViewModel.kt:372-391 | no two cells of the shuffled grid hold tiles with the same home |
| Shuffle.ShuffleGridValid | app/src/main/java/com/akinalpfdn/sortue/viewmodels/GameViewModel.kt:359-392 | for any order of the movable tiles, the rebuilt grid is valid and holds the same tiles |
| Shuffle.ShuffleKeepsGrid | app/src/main/java/com/akinalpfdn/sortue/viewmodels/GameViewModel.kt:359-392 | the shuffled grid is a rearrangement of the input; fixed tiles sit at their correctId; every movable tile's currentIdx is its new index |
| Cycles.Period | app/src/main/java/com/akinalpfdn/sortue/viewmodels/GameViewModel.kt:529-552 | following homes from a position returns to it after Period steps and not before |
| Cycles.IterDistinct | app/src/main/java/com/akinalpfdn/sortue/viewmodels/GameViewModel.kt:529-552 | within one period the walk never repeats a position |
| Cycles.RepIter | app/src/main/java/com/akinalpfdn/sortue/viewmodels/GameViewModel.kt:529-552 | every position on a cycle has the same least element |
| Cycles.LeaderCycle | app/src/main/java/com/akinalpfdn/sortue/viewmodels/GameViewModel.kt:529-552 | the walk from a cycle's least element visits exactly the positions of that cycle |
| Cycles.CountLeadersBound | app/src/main/java/com/akinalpfdn/sortue/viewmodels/GameViewModel.kt:512-555 | there are at most n cycles, and exactly n if and only if every position is its own cycle |
| Cycles.CycleCountPositive | app/src/main/java/com/akinalpfdn/sortue/viewmodels/GameViewModel.kt:512-555 | a non-empty grid has at least one cycle |
| Cycles.MinMovesRange | app/src/main/java/com/akinalpfdn/sortue/viewmodels/GameViewModel.kt:512-555 | the minimum move count is between 0 and n - 1 |
| Cycles.SolvedIffNoMoves | app/src/main/java/com/akinalpfdn/sortue/viewmodels/GameViewModel.kt:512-555 | the count is 0 if and only if every tile is at home |
| Cycles.TranspositionNeedsOneMove | app/src/main/java/com/akinalpfdn/sortue/viewmodels/GameViewModel.kt:512-555 | a grid that is one swap away from solved has a count of exactly 1 |
| Cycles.LeadersExceptOne | app/src/main/java/com/akinalpfdn/sortue/viewmodels/GameViewModel.kt:515-553 | when only one position fails to be a cycle leader, there are n - 1 cycles |
| Cycles.SkipMarked | app/src/main/java/com/akinalpfdn/sortue/viewmodels/GameViewModel.kt:520 | a visited position belongs to a cycle already counted |
| Cycles.UnmarkedIsLeader | app/src/main/java/com/akinalpfdn/sortue/viewmodels/GameViewModel.kt:520-553 | an unvisited position is the least element of a new cycle, so cycles goes up by one |
| Cycles.FixedPointCycle | app/src/main/java/com/akinalpfdn/sortue/viewmodels/GameViewModel.kt:523-527 | a tile already at home is a whole 1-cycle, and marking it alone is enough |
| Cycles.MarkCycle | app/src/main/java/com/akinalpfdn/sortue/viewmodels/GameViewModel.kt:529-552 | the inner walk stops, and marks exactly the cycle through i |
| Cycles.CalculateMinMoves | app/src/main/java/com/akinalpfdn/sortue/viewmodels/GameViewModel.kt:512-556 | returns n minus the number of cycles of position -> home |
| Persistence.GetInt | app/src/main/java/com/akinalpfdn/sortue/viewmodels/GameViewModel.kt:109 | a missing key reads as the default; a stored integer reads as itself |
| Persistence.GetString | app/src/main/java/com/akinalpfdn/sortue/viewmodels/GameViewModel.kt:59 | a missing key reads as the default; a stored string reads as itself |
| Persistence.Save | app/src/main/java/com/akinalpfdn/sortue/viewmodels/GameViewModel.kt:68-85 | writes the record under the mode's key and the mode's name as last active, and touches no other key |
| Persistence.Load | app/src/main/java/com/akinalpfdn/sortue/viewmodels/GameViewModel.kt:88-90 | a loaded record is the one stored under the mode's key, and a stored parsable record always loads; a missing or unparsable save loads nothing |
| Persistence.LastMode | app/src/main/java/com/akinalpfdn/sortue/viewmodels/GameViewModel.kt:59-60 | a stored name that parses gives the mode of that name; a missing or unknown name gives Casual |
| Persistence.IncrementLevel | app/src/main/java/com/akinalpfdn/sortue/viewmodels/GameViewModel.kt:501-502 | the counter reads one more than before, and every other key is untouched |
| Persistence.LoadAfterSave | app/src/main/java/com/akinalpfdn/sortue/viewmodels/GameViewModel.kt:68-117 | a saved game loads back as it was saved |
| Persistence.SaveIsolatesModes | app/src/main/java/com/akinalpfdn/sortue/viewmodels/GameViewModel.kt:80-84 | saving one mode leaves every other mode's save as it was |
| Persistence.LastModeAfterSave | app/src/main/java/com/akinalpfdn/sortue/viewmodels/GameViewModel.kt:82-83 | after a save the app reopens in the saved mode |
| Persistence.SaveOverwrites | app/src/main/java/com/akinalpfdn/sortue/viewmodels/GameViewModel.kt:81-84 | a second save of the same mode leaves the store exactly as if only the second save had happened |
| Persistence.SaveKeepsLevels | app/src/main/java/com/akinalpfdn/sortue/viewmodels/GameViewModel.kt:81-84 | saving leaves every level counter unchanged |
| Persistence.IncrementIsolatesCounters | app/src/main/java/com/akinalpfdn/sortue/viewmodels/GameViewModel.kt:494-502 | a win raises its own counter by one and leaves the counter of every other mode, and of every other Casual grid size, as it was |
| Persistence.IncrementKeepsSaves | app/src/main/java/com/akinalpfdn/sortue/viewmodels/GameViewModel.kt:501-502 | counting a win leaves every saved game unchanged |
| ViewModel.OrderFor | app/src/main/java/com/akinalpfdn/sortue/viewmodels/GameViewModel.kt:369 | the assumed seeded shuffle (the shuffler parameter standing for `List.shuffle`) gives a permutation of the movable tiles |
| ViewModel.SaveKeepsStoreValid | app/src/main/java/com/akinalpfdn/sortue/viewmodels/GameViewModel.kt:68-85 | saving a valid grid keeps every loadable save valid |
| ViewModel.IncrementKeepsStoreValid | app/src/main/java/com/akinalpfdn/sortue/viewmodels/GameViewModel.kt:501-502 | counting a win keeps every loadable save valid |
| ViewModel.MoveRecorded | app/src/main/java/com/akinalpfdn/sortue/viewmodels/GameViewModel.kt:430-447 | a move saved and then counted as a win when it solved the board loads back as saved, and the level counter rises by one exactly when it was solved |
| ViewModel.StatusAfterSwap | app/src/main/java/com/akinalpfdn/sortue/viewmodels/GameViewModel.kt:434-447 | a solving swap animates; an unsolved swap below the Ladder limit keeps the status; at the limit an unsolved game becomes GameOver unless it is already animating or won |
| ViewModel.FreshBoard | app/src/main/java/com/akinalpfdn/sortue/viewmodels/GameViewModel.kt:173-202 | the new level's board is a valid, solved, position-tracking grid of dim^2 fresh tiles |
| ViewModel.ShuffledGrid | app/src/main/java/com/akinalpfdn/sortue/viewmodels/GameViewModel.kt:359-391 | the shuffled board is a valid grid of the same side holding the same tiles |
| ViewModel.ShuffleBoard | app/src/main/java/com/akinalpfdn/sortue/viewmodels/GameViewModel.kt:359-392 | the array-based shuffle returns the shuffled board for the given order |
| ViewModel.SwappedById | app/src/main/java/com/akinalpfdn/sortue/viewmodels/GameViewModel.kt:418-430 | the board keeps its length; an unknown id leaves it as it was; when both ids are present the two tiles exchange positions, each records its new position, and every other tile stays |
| ViewModel.SwapByIdKeepsGrid | app/src/main/java/com/akinalpfdn/sortue/viewmodels/GameViewModel.kt:418-430 | a swap by ids keeps the grid valid and holds the same tiles |
| ViewModel.GameViewModel.constructor | app/src/main/java/com/akinalpfdn/sortue/viewmodels/GameViewModel.kt:58-66 | reopens the last active mode's save, or else starts a 4 x 4 Casual game in preview with a shuffle pending |
| ViewModel.GameViewModel.SaveGameState | app/src/main/java/com/akinalpfdn/sortue/viewmodels/GameViewModel.kt:68-85 | the store becomes the old store with the current record saved under the current mode |
| ViewModel.GameViewModel.LoadGameState | app/src/main/java/com/akinalpfdn/sortue/viewmodels/GameViewModel.kt:87-117 | succeeds exactly when the target mode's save parses; restores tiles, status, side, moves and corners; a missing minMoves reads as 0 and a missing mode as the target; the level is the restored mode's counter + 1; a failure changes nothing |
| ViewModel.GameViewModel.StartNewGame | app/src/main/java/com/akinalpfdn/sortue/viewmodels/GameViewModel.kt:129-216 | applies the new side and mode; level = counter + 1; status Preview, moves, minMoves and selection reset; win job cancelled; corners kept or taken from the level seed; a fresh solved grid is saved; a shuffle is pending on the level seed + 999 |
| ViewModel.GameViewModel.BeginLevel | app/src/main/java/com/akinalpfdn/sortue/viewmodels/GameViewModel.kt:130-151 | side, mode, level from the mode's counter, jobs cancelled, counters and selection reset |
| ViewModel.GameViewModel.ChooseCorners | app/src/main/java/com/akinalpfdn/sortue/viewmodels/GameViewModel.kt:165-171 | keeps the corners when asked to and there are some; otherwise paints and stores the level seed's rotated palette |
| ViewModel.GameViewModel.RunShuffleJob | app/src/main/java/com/akinalpfdn/sortue/viewmodels/GameViewModel.kt:359-398 | the board becomes the shuffle of the current board for the job's seed; minMoves = n - cycles; status Playing; the game is saved |
| ViewModel.GameViewModel.CheckWinCondition | app/src/main/java/com/akinalpfdn/sortue/viewmodels/GameViewModel.kt:481-510 | a solved board animates, adds one to the level counter and starts a win job (orphaning a pending one); otherwise nothing changes; saves are untouched |
| ViewModel.GameViewModel.RunWinJob | app/src/main/java/com/akinalpfdn/sortue/viewmodels/GameViewModel.kt:504-508 | the game is won and saved as won |
| ViewModel.GameViewModel.SwapTiles | app/src/main/java/com/akinalpfdn/sortue/viewmodels/GameViewModel.kt:418-449 | with an unknown id nothing changes; otherwise the two tiles exchange and moves + 1; the status follows the win and Ladder-limit rules; the store is exactly the old store with the board saved (with its old status) plus one win when solved, or with the final board saved when not; a solving swap starts a win job |
| ViewModel.GameViewModel.ApplySwap | app/src/main/java/com/akinalpfdn/sortue/viewmodels/GameViewModel.kt:419-432 | exchanges the two positions and counts the move; the store becomes exactly the old store with the new board saved, so every counter and other mode's save is untouched |
| ViewModel.GameViewModel.FinishSwap | app/src/main/java/com/akinalpfdn/sortue/viewmodels/GameViewModel.kt:434-447 | runs the win check, then in Ladder from move 200 on the loss unless animating or won; the store is the old store plus one win when solved, plus the GameOver save when lost, and unchanged otherwise |
| ViewModel.GameViewModel.CommitBoard | app/src/main/java/com/akinalpfdn/sortue/viewmodels/GameViewModel.kt:475-476 | publishes the board and saves it, leaving the counters alone |
| ViewModel.GameViewModel.LoseUnlessWon | app/src/main/java/com/akinalpfdn/sortue/viewmodels/GameViewModel.kt:439-443 | any status but Animating or Won becomes GameOver, and the store becomes exactly the old store with that game saved; otherwise nothing changes |
| ViewModel.GameViewModel.SelectTile | app/src/main/java/com/akinalpfdn/sortue/viewmodels/GameViewModel.kt:400-416 | outside play or on a fixed tile nothing changes; a first pick is remembered; re-picking clears it and changes nothing else; another pick clears it and has exactly the effect of swapTiles on the two ids |
| ViewModel.GameViewModel.UseHint | app/src/main/java/com/akinalpfdn/sortue/viewmodels/GameViewModel.kt:451-479 | outside play, in Ladder or with nothing misplaced nothing changes; otherwise the hint step is applied without counting a move and more tiles are home; the store is the old store with the board saved as Playing plus one win when the hint solved it; a solving hint animates and starts a win job |
| ViewModel.GameViewModel.ApplyHint | app/src/main/java/com/akinalpfdn/sortue/viewmodels/GameViewModel.kt:464-476 | applies the hint step, with strictly more tiles at home; the store becomes exactly the old store with the new board saved |
| ViewModel.GameViewModel.GoToMenu | app/src/main/java/com/akinalpfdn/sortue/viewmodels/GameViewModel.kt:557-561 | goes to the menu unless the game is over |
| ViewModel.GameViewModel.ResumeGame | app/src/main/java/com/akinalpfdn/sortue/viewmodels/GameViewModel.kt:563-567 | resumes play only with a board and a status other than Won and GameOver |
| ViewModel.GameViewModel.PlayOrResumeGame | app/src/main/java/com/akinalpfdn/sortue/viewmodels/GameViewModel.kt:569-593 | saves a non-empty board, then either resumes the target mode's save in full (board, side, moves, corners, minMoves, mode and level; a menu status becomes Playing; selection and jobs kept) or starts a new game of that mode and size (fresh board, level, corners, pending shuffle, and the new game saved) |
| Rate.LaunchesAdd | app/src/main/java/com/akinalpfdn/sortue/utils/RateManager.kt:29-30 | k launches add exactly k to the count and keep the threshold |
| Rate.FreshInstallPrompts | app/src/main/java/com/akinalpfdn/sortue/utils/RateManager.kt:18-39 | from count 0 and threshold 10, launch k prompts if and only if k >= 10 |
| Rate.RemindPostpones | app/src/main/java/com/akinalpfdn/sortue/utils/RateManager.kt:42-45 | after "remind me later" the k-th launch prompts if and only if k >= 5, so the next one never does |
| Rate.RatePostpones | app/src/main/java/com/akinalpfdn/sortue/utils/RateManager.kt:47-50 | after "rate now" the k-th launch prompts if and only if k >= 100 |
| Rate.PromptStaysDue | app/src/main/java/com/akinalpfdn/sortue/utils/RateManager.kt:33 | once due, every further launch is due until the prompt is postponed |
| Rate.RateManager.constructor | app/src/main/java/com/akinalpfdn/sortue/utils/RateManager.kt:18-27 | a missing count reads as 0, a missing threshold as 10; no popup is shown or pending |
| Rate.RateManager.AppDidLaunch | app/src/main/java/com/akinalpfdn/sortue/utils/RateManager.kt:29-40 | the count goes up by exactly 1; a popup is scheduled exactly when the new count reaches the threshold |
| Rate.RateManager.DeliverPopup | app/src/main/java/com/akinalpfdn/sortue/utils/RateManager.kt:35-38 | a scheduled popup job shows the popup |
| Rate.RateManager.RemindMeLater | app/src/main/java/com/akinalpfdn/sortue/utils/RateManager.kt:42-45 | threshold = count + 5, count unchanged, popup hidden |
| Rate.RateManager.RateNow | app/src/main/java/com/akinalpfdn/sortue/utils/RateManager.kt:47-62 | threshold = count + 100, count unchanged, popup hidden |

## Left out

- Colour sampling is left out. The harmony profiles, the HSB ranges, `fromHSB` (Android's `HSVToColor`), `RGBData.random`, the `color` getter and `distance` (a square root) are not modelled. The four sampled colours and the rotation come from the `palette` parameter.
- Kotlin's `Random` and `List.shuffle` cannot be reproduced. The rotation and the order of the movable tiles are functions of the seed passed to the view model. Only their seeds are modelled exactly.
- Doubles are idealised as reals, so rounding in `lerp` and `interpolated` is not modelled.
- Coroutine timing is not modelled: the 2.5 s, 2 s and 1 s delays, and which pending job runs first. Each job is a step method that may be called while its job is pending.
- SharedPreferences and Gson are not modelled beyond a map from key to value. A stored game either parses to the record saved or fails to parse. A value of the wrong type reads as the default, where Android would throw.
- The string keys are modelled as distinct datatype constructors.
- Kotlin's `Int` is 32-bit and wraps on overflow. Moves, levels and launch counts are unbounded here. Seeds are `Long` in the source and cannot overflow at realistic levels.
- Tile objects are modelled as values. In the source, `currentIdx` is mutated on tile objects that may be shared with the previous list, and that aliasing is not modelled. The engine reads `currentIdx` in two places. The save serializes it. The hint search calls `indexOf`, whose data-class equality compares it. All tile ids are distinct, so `indexOf` finds a tile at its own position whatever its `currentIdx` is (Board.IndexOfDistinct). The aliasing therefore cannot change a hint.
- The Play Store intent, `println`, haptics, audio and the Compose UI are left out.
- ViewModel.GameViewModel.StartNewGame: requires a non-negative side. The source accepts a negative one and builds an empty grid, which no valid grid invariant describes.
- ViewModel.GameViewModel.PlayOrResumeGame: requires a non-negative size, for the same reason.
- ViewModel.GameViewModel.constructor: requires the stored saves to be valid grids and the shuffle source to give permutations. A tampered store is not modelled.
- ViewModel.GameViewModel.constructor: its contract states the loaded board and the store, not every field. LoadGameState states the full restoration.
- Cycles.CalculateMinMoves: proves the value is n minus the number of cycles. It does not prove that no shorter sequence of swaps sorts the board.
- Palette.RotateCorners: the colours are opaque, so the ordering "c1 lightest … c4 darkest" is a naming convention, not a property.
- Modes.LevelSeedInjective: holds only below level 10000. Modes.LevelSeedOverlap shows the collision above it.
