# Streets and houses: a verified model of the game engine and its computer players

This project models the engine of *streets and houses*, a dots-and-boxes game, and the move
generators of its computer players. Everything is written in Dafny and proved by it.

- **The board** (`Game`, `GameInvariants`, `Boards`).
  - A board is a grid of `height × width` cells (houses), `2·height + 1` rows of walls (streets) and `(height + 1) × (width + 1)` joints.
  - Even wall rows hold the `width` horizontal walls. Odd rows hold the `width + 1` vertical walls.
  - Every wall knows its one or two adjacent cells.
  - Clicking a wall marks it and the flags of its joints. It also bumps the counters of its cells.
  - A cell whose counter reaches 4 goes to the clicking player, and that player scores a point. Completing a cell earns an extra move.
  - The pure model is the datatype `Game.BoardState`, and `Game.Click` is the click as a function.
  - The class `Boards.Board` holds the same fields and updates them in place, as `click_wall` does. Its methods are proved against the functions.
  - Every board built by `Board::new` and clicks is `Consistent`: its points also equal the cells each player owns. The players require less, `AI.Playable`: the structural part `GameInvariants.WellFormed`, so that a board read from text, whose points stay zero, is accepted when its walls, counters and owners agree.
- **The text form** (`Text`, `TextBoard`).
  - `Display` writes a board as rows of symbols:
    - `X` is a clicked wall, `-` and `|` are open walls, and `A`, `B`, `C` or a blank are cell owners.
    - Each wall symbol of a horizontal row and each owner symbol of a vertical row is widened to `REPEAT_COUNT` (5) characters.
    - Each vertical row is written `REPEAT_COUNT` times.
  - `FromStr` reads such text back, undoing both and marking walls and owners on a new board.
  - Both directions are pure functions here: `Text.Encode` and `Text.Decode`. Both are also methods over the `Board` object with the loops of the source: `TextBoard.Fmt` and `TextBoard.FromStr`.
  - `Text.DecodeEncode` proves that decoding an encoded board restores every wall's click flag and every cell's owner.
- **Wall statistics** (`AI`, `MoveOrder`).
  - Every open wall is summarised by the largest counter of its adjacent cells.
  - The summary fixes a priority: a wall that completes a cell first, a safe wall next, and a wall that gives a cell away last.
  - The older minimax player sorts the moves by this priority.
- **The players** (`Greedy`, `LegacyGreedy`, `Region`, `RegionCounting`, `Minimax`, `Minmax`).
  - The greedy player takes a wall of the best tier. It exists twice: `src/ai/greedy_algorithm_player.rs`, and an older copy that scans the walls in a loop.
  - The region-counting player plays each candidate wall forward on a copy of the board to size the region it opens.
  - The minimax player of `src/ai/minimax_player.rs` searches with fail-soft alpha-beta. Its result is proved against a reference minimax value.
  - The hard player of `src/ai/minmax_player.rs` adds a cache and keeps every move tied for the best score.
- **The renderer's joint sprites** (`Renderer`). A joint's 4-bit mask names one of 16 sprite files.

Random choices are modelled as draws. `Choose(s, draw)` picks `s[draw % |s|]`, and lemmas show that every element of the filtered set is reachable by some draw. Scores are mathematical integers. The `i32` evaluation wraps explicitly (`Scores.Wrap32`).

## Model

| member | source | states |
|---|---|---|
| Game.Opponent | src/game/mod.rs:28-34 | the opponent of Player1 or CPU is the other of the two, never Player2 |
| Game.AddPoint | src/game/mod.rs:239-243 | exactly the clicking player's points go up by one; the other players' points and the winner are unchanged |
| Game.GetStatistics | src/game/mod.rs:269-287 | the points are copied; Player2 wins iff p1 < p2; otherwise Player1 wins iff p1 > cpu, CPU wins iff p1 < cpu, and there is no winner when p1 == cpu |
| Game.SetWallClicked | src/game/mod.rs:119-126 | exactly the flag of the given direction becomes set, the other flags and the id are kept |
| Game.FoldBits | src/game/mod.rs:128-138 | folding n flags into a number gives a value below 2^n |
| Game.GetJointMask | src/game/mod.rs:128-138 | the mask is 8·N + 4·E + 2·S + W and therefore below 16 |
| Game.InBoundsCells | src/game/mod.rs:172-211 | only candidate cells inside the grid are kept as adjacent cells |
| Game.InBoundsCellsMembers | src/game/mod.rs:172-211 | a cell is kept iff it is a candidate and lies inside the grid |
| Game.AdjacentCellsOf | src/game/mod.rs:172-211 | every adjacent cell of a wall lies inside the grid |
| Game.AdjacentCellsMembers | src/game/mod.rs:172-211 | the adjacent cells are exactly the in-grid cells above/below (even row) or left/right (odd row) of the wall |
| Game.AdjacentCellsInBounds | src/game/mod.rs:233-235 | indexing the cells by an adjacent cell of a wall stays in bounds |
| Game.BumpCells | src/game/mod.rs:233-247 | bumping the adjacent cells keeps the shape of the grid |
| Game.SetJoints | src/game/mod.rs:248-250 | setting joint flags keeps the shape of the joint grid |
| Game.AdjacentJointsInBounds | src/game/mod.rs:248-250 | the joints touched by a wall exist on a shaped board |
| Game.NewBoard | src/game/mod.rs:152-223 | `Board::new` gives a grid of the requested size, no cell counted or owned, and zero statistics; its walls and joints are stated by GameInvariants.NewBoardShaped, NewBoardAdjacency, NewBoardNothingClicked and NewBoardConsistent |
| Game.Click | src/game/mod.rs:225-256 | carried by GameInvariants.ClickErrors (both errors leave the board as it was; Ok iff the wall is open), ClickWalls, ClickCells, ClickJoints, ClickScores and ClickPreservesConsistent |
| Game.AllClicked | src/game/mod.rs:258-267 | carried by Boards.Board.AllIsClicked (the scan is true iff this holds) and GameInvariants.FinishedGamePoints (then every cell is shared out) |
| GameInvariants.NewBoardShaped | src/game/mod.rs:152-223 | a new board has h rows of cells, h+1 rows of joints and 2h+1 rows of walls with w walls on even rows and w+1 on odd rows |
| GameInvariants.NewBoardAdjacency | src/game/mod.rs:172-211 | on a grid of at least one cell every wall has one or two distinct adjacent cells |
| GameInvariants.NewBoardConsistent | src/game/mod.rs:152-223 | a new board satisfies the board invariant (counters equal clicked walls around, owners exactly at counter 4, flags match walls, points equal owned cells) and has zero statistics |
| GameInvariants.NewBoardNothingClicked | src/game/mod.rs:169-213 | no wall of a new board is clicked |
| GameInvariants.AdjacencySymmetric | src/game/mod.rs:172-211 | cell (i, j) is adjacent to wall (r, c) iff (r, c) is one of the four walls around that cell |
| GameInvariants.Bumped | src/game/mod.rs:235-245 | a cell below 4 gains one on its counter; a cell at 4 is unchanged; a cell that was at 3 now belongs to the clicking player |
| GameInvariants.CompletionsPositive | src/game/mod.rs:230-244 | some cell is completed iff some adjacent cell had counter 3 |
| GameInvariants.BumpCellsEffect | src/game/mod.rs:233-247 | exactly the adjacent cells are bumped; the clicking player's points grow by the cells completed; the extra-move flag is set iff some cell was completed |
| GameInvariants.BumpCellKeepsScores | src/game/mod.rs:235-245 | bumping one cell keeps "owners exactly at counter 4" and gives each player as many points as cells |
| GameInvariants.BumpCellsKeepsScores | src/game/mod.rs:233-247 | bumping keeps "owners exactly at counter 4"; each player gains exactly as many points as cells, so "points equal owned cells" is kept too |
| GameInvariants.SetJointsEffect | src/game/mod.rs:248-250 | each joint flag becomes set exactly when the wall touches that joint from that direction |
| GameInvariants.GuardMatchesWalls | src/game/mod.rs:226-228 | the coordinate guard lets (row, col) through iff it names a wall of the board |
| GameInvariants.ClickErrors | src/game/mod.rs:225-256 | out-of-range coordinates give Err(WrongCoordinates) and a clicked wall gives Err(AlreadyClicked), in both cases with the board unchanged; the result is Ok iff the wall is open |
| GameInvariants.ClickedAfterClick | src/game/mod.rs:231-232 | after a successful click the clicked walls are the old ones plus the clicked wall |
| GameInvariants.ClickWalls | src/game/mod.rs:231-232 | a successful click changes exactly that wall's flag and keeps every dimension |
| GameInvariants.ClickShaped | src/game/mod.rs:225-256 | a click keeps the board's shape |
| GameInvariants.ClickCells | src/game/mod.rs:233-247 | a successful click bumps exactly the wall's adjacent cells and leaves every other cell as it was |
| GameInvariants.ClickJoints | src/game/mod.rs:248-250 | a successful click sets exactly the joint flags on the wall's two ends |
| GameInvariants.ClickScores | src/game/mod.rs:230-255 | the clicking player gains one point per completed cell, the other players gain nothing, and the result is Ok(true) iff some adjacent cell had counter 3 |
| GameInvariants.ClickDecreasesUnclicked | src/game/mod.rs:225-256 | a successful click removes exactly one open wall; a failed one removes none |
| GameInvariants.OpenWallNeighbours | src/game/mod.rs:233-247 | on a well-formed board the cells next to an open wall have a counter of at most 3 |
| GameInvariants.ClickPreservesConsistent | src/game/mod.rs:225-256 | every click keeps the board invariant |
| GameInvariants.ClickPreservesWellFormed | src/game/mod.rs:225-256 | every click keeps the structural part of the invariant (shape, counters, owners, joint flags) whatever the points are |
| GameInvariants.ClickGainsOwnedCells | src/game/mod.rs:230-255 | a click adds to the players' total points exactly the number of cells it newly owns |
| GameInvariants.ClickKeepsInvariants | src/game/mod.rs:225-256 | every click keeps the shape, and keeps consistency on a consistent board |
| GameInvariants.ClickKeepsCounters | src/game/mod.rs:233-247 | after a click every counter is still the number of clicked walls around its cell, so counters never exceed 4 |
| GameInvariants.ClickKeepsJoints | src/game/mod.rs:248-250 | after a click every joint flag still says whether the wall in that direction is clicked |
| GameInvariants.ClickKeepsOwners | src/game/mod.rs:235-245 | after a click a cell has an owner exactly when its counter is 4, and each player's points equal the cells the player owns |
| GameInvariants.PointsAreOwnedCells | src/game/mod.rs:237-244 | on a consistent board the total of the points is the number of owned cells |
| GameInvariants.FinishedGamePoints | src/game/mod.rs:258-267 | when every wall is clicked the points add up to the number of cells |
| GameInvariants.PointsBounded | src/game/mod.rs:237-244 | the points never add up to more than the number of cells |
| Boards.Board.constructor | src/game/mod.rs:152-223 | `Board::new` builds the board `NewBoard(width, height)`, which is consistent |
| Boards.Board.Copy | src/ai/mod.rs:55 | the clone has the same value as the original |
| Boards.Board.ClickWall | src/game/mod.rs:225-256 | the in-place click leaves the object equal to `Click` of the old value, returns its result, and keeps consistency |
| Boards.Board.BumpAdjacentCells | src/game/mod.rs:233-247 | the cell loop computes `BumpCells` over the adjacent cells and touches no wall or joint |
| Boards.Board.SetAdjacentJoints | src/game/mod.rs:248-250 | the joint loop computes `SetJoints` and touches nothing else |
| Boards.Board.AllIsClicked | src/game/mod.rs:258-267 | the scan returns true iff every wall is clicked |
| Text.Repeat | src/game/mod.rs:290-331 | a run of n copies of one character |
| Text.LetterOwnerInverts | src/game/mod.rs:315-394 | reading back the letter written for an owner gives that owner, and no owner is written as X |
| Text.RowSymbols | src/game/mod.rs:295-331 | a horizontal row has 2w symbols and a vertical row 2w+1 |
| Text.SymbolRows | src/game/mod.rs:292-336 | there is one symbol row per wall row |
| Text.Widened | src/game/mod.rs:290-331 | every row is widened symbol by symbol |
| Text.Encode | src/game/mod.rs:292-336 | carried by Text.RowsOfEncode (its lines narrow back to the symbol rows), Text.DecodeEncode (decoding it restores walls and owners) and TextBoard.Fmt (`Display` writes it) |
| Text.RowLines | src/game/mod.rs:304-331 | a horizontal row is written once and a vertical row REPEAT_COUNT times |
| Text.Lines | src/game/mod.rs:346-347 | the text splits into newline-free lines, none exactly when the text is empty |
| Text.Replace | src/game/mod.rs:350-358 | `str::replace` never lengthens the text when the replacement is no longer than the pattern, and introduces no character but those of the text and the replacement |
| Text.Kept | src/game/mod.rs:346-361 | at most one kept line per line, and at least one for a non-empty text |
| Text.Rows | src/game/mod.rs:346-361 | at most one row per line, and at least one row for non-empty text |
| Text.CountWall | src/game/mod.rs:367-391 | bumping the cells of a read wall keeps the grid's shape and owners |
| Text.Marked | src/game/mod.rs:367-391 | marking a wall sets exactly its click flag and changes no owner |
| Text.MarkWall | src/game/mod.rs:367-391 | marking succeeds iff the wall exists, otherwise the error is IndexOutOfBounds |
| Text.SetOwner | src/game/mod.rs:392-394 | setting an owner succeeds iff the cell exists and then changes exactly that cell's owner and no wall |
| Text.DecodeChar | src/game/mod.rs:365-397 | the only error of one symbol is IndexOutOfBounds; a success keeps the board's shape |
| Text.DecodeRow | src/game/mod.rs:364-399 | the only error of a row is IndexOutOfBounds; a success keeps the shape |
| Text.DecodeRows | src/game/mod.rs:364-399 | the only error of the replay is IndexOutOfBounds; a success keeps the shape |
| Text.Decode | src/game/mod.rs:338-402 | the error is EmptyInput iff the text is empty; a decoded board is shaped and has zero statistics |
| Text.RowsOfEncode | src/game/mod.rs:292-361 | splitting and narrowing the text of a board gives back its symbol rows |
| Text.DecodeEncode | src/game/mod.rs:292-402 | decoding the text of any board succeeds with the same dimensions, the same click flag on every wall and the same owner on every cell |
| TextBoard.HorizontalLine | src/game/mod.rs:296-303 | the loop over a horizontal row writes the widened symbols of that row |
| TextBoard.VerticalLine | src/game/mod.rs:307-329 | the loop over a vertical row writes the widened symbols of that row |
| TextBoard.RowText | src/game/mod.rs:295-333 | the text of one wall row, the vertical rows written REPEAT_COUNT times |
| TextBoard.Fmt | src/game/mod.rs:292-336 | `Display` writes exactly `Encode` of the board |
| TextBoard.CountAdjacentCells | src/game/mod.rs:367-391 | the in-place cell update of a read wall computes `CountWall` |
| TextBoard.MarkWallInPlace | src/game/mod.rs:367-391 | succeeds iff `MarkWall` does and then leaves the board equal to its result |
| TextBoard.SetOwnerInPlace | src/game/mod.rs:392-394 | succeeds iff `SetOwner` does and then leaves the board equal to its result |
| TextBoard.ReplayChar | src/game/mod.rs:365-397 | one symbol does in place what `DecodeChar` says |
| TextBoard.ReplayRow | src/game/mod.rs:364-399 | the loop over one row does in place what `DecodeRow` says |
| TextBoard.ReplayRows | src/game/mod.rs:364-399 | the loop over the rows does in place what `DecodeRows` says |
| TextBoard.FromStr | src/game/mod.rs:338-402 | fails iff `Decode` fails and with the same error; otherwise returns a fresh board whose value is `Decode` of the text |
| AI.FilterWalls | src/ai/mod.rs:43-45 | the filter never grows the list |
| AI.FilterWallsMembers | src/ai/mod.rs:43-45 | an element is kept iff it is in the list and satisfies the predicate |
| AI.FilterWallsAppend | src/ai/mod.rs:43-45 | filtering distributes over concatenation, so the original order is kept |
| AI.Choose | src/ai/mod.rs:47-52 | a choice is None iff the list is empty, and otherwise an element of it |
| AI.ChooseReachesAll | src/ai/mod.rs:47-52 | every element of the list is chosen by some draw |
| AI.ChooseWallIndex | src/ai/mod.rs:47-52 | Some(x) only for an x in the list that satisfies the predicate; None iff no element does |
| AI.ChooseWallIndexReachesAll | src/ai/mod.rs:47-52 | every element that satisfies the predicate is chosen by some draw |
| AI.MaxCounter | src/ai/mod.rs:103-109 | the largest counter among the adjacent cells is at least each of them and equals one of them |
| AI.CollectRowsSound | src/ai/mod.rs:95-114 | every collected statistic names an open wall of its row by its id and carries that wall's largest counter |
| AI.CollectRowsComplete | src/ai/mod.rs:95-114 | every open wall has its statistic collected |
| AI.CollectRowsOrdered | src/ai/mod.rs:95-114 | the statistics come in row-major order |
| AI.CollectWallStatistics | src/ai/mod.rs:95-114 | carried by AI.CollectSpec, CollectMembers, CollectRowsSound, CollectRowsComplete and CollectRowsOrdered |
| AI.CollectSpec | src/ai/mod.rs:95-114 | exactly one entry per open wall, with that wall's id and largest adjacent counter, in row-major order |
| AI.CollectMembers | src/ai/mod.rs:95-114 | a statistic is collected iff it is that of an open wall |
| AI.PlayableIgnoresPoints | src/ai/mod.rs:95-114 | whether the players accept a board does not depend on its points, so a board read from text with owners and zero points is accepted |
| AI.SameWallsPlayable | src/ai/mod.rs:95-114 | a board that differs from an accepted one only in its points is accepted |
| AI.NewBoardPlayable | src/game/mod.rs:152-223 | every new board with at least one cell is accepted by the players |
| AI.PlayableFacts | src/ai/mod.rs:103-123 | on an accepted board every open wall has at least one cell and a largest counter of at most 3, so `expect` and `unreachable!` are never hit |
| AI.ClickPlayable | src/ai/mod.rs:68 | clicking keeps a board well formed, so the players can go on |
| AI.WallPriority | src/ai/mod.rs:116-123 | the priority of an open wall is at most 2 |
| AI.PriorityMatchesTiers | src/ai/mod.rs:116-123 | priority 0 iff counter 3, priority 1 iff counter 0 or 1, priority 2 iff counter 2 |
| MoveOrder.SortByPriority | src/ai/minimax_player.rs:89 | carried by MoveOrder.SortIsPermutation, SortIsPrioritized, SortIsStable and SortFacts |
| MoveOrder.TierMembers | src/ai/minimax_player.rs:89 | a tier holds exactly the walls of that priority |
| MoveOrder.SortIsPrioritized | src/ai/minimax_player.rs:89 | the sort orders walls by non-decreasing priority |
| MoveOrder.SortIsPermutation | src/ai/minimax_player.rs:89 | the sort is a permutation of its input |
| MoveOrder.SortIsStable | src/ai/minimax_player.rs:89 | walls of equal priority keep their order |
| MoveOrder.SortFacts | src/ai/minimax_player.rs:89 | the sort keeps the length and the elements and is ordered |
| MoveOrder.Positions | src/ai/minimax_player.rs:90 | each statistic is mapped to its (row, col) |
| MoveOrder.AvailableMoves | src/ai/minimax_player.rs:87-91 | every available move is an open wall |
| MoveOrder.AvailableMovesExact | src/ai/minimax_player.rs:87-91 | a move is available iff it is an open wall |
| MoveOrder.AvailableMovesCount | src/ai/minimax_player.rs:87-91 | there are as many available moves as open walls |
| MoveOrder.AvailableMovesOrdered | src/ai/minimax_player.rs:87-91 | available moves come in non-decreasing priority |
| Greedy.TieredChoice | src/ai/greedy_algorithm_player.rs:16-35 | the choice is one of the walls; a completing wall if there is one; else a safe wall if there is one; else a wall that gives a cell away |
| Greedy.NextMove | src/ai/greedy_algorithm_player.rs:7-36 | None iff every wall is clicked; any move is an open wall |
| Greedy.NextMoveChoice | src/ai/greedy_algorithm_player.rs:11-33 | on an open board the move is the tiered choice among the collected statistics |
| Greedy.NextMoveCompletes | src/ai/greedy_algorithm_player.rs:16-23 | when some open wall has counter 3 the move has counter 3 |
| Greedy.NextMoveSafe | src/ai/greedy_algorithm_player.rs:25-29 | otherwise, when some open wall has counter at most 1, so does the move |
| Greedy.NextMoveGivesAway | src/ai/greedy_algorithm_player.rs:31-35 | otherwise the move has counter 2, so the unreachable branch is never hit |
| Greedy.NextMoveIsBestPriority | src/ai/greedy_algorithm_player.rs:16-33 | no open wall has a better priority than the move |
| Greedy.TieredChoiceReaches | src/ai/greedy_algorithm_player.rs:16-33 | every wall of the best tier is chosen by some draw |
| Greedy.NextMoveReachesBestTier | src/ai/greedy_algorithm_player.rs:16-33 | every open wall of the best priority is the move for some draw |
| LegacyGreedy.RowStatisticsByIndex | src/game/ai.rs:48-61 | on an accepted board the statistic of every open wall enumerated at (r, c) names (r, c) and its largest adjacent counter |
| LegacyGreedy.ScanRow | src/game/ai.rs:49-61 | the inner loop pushes the statistics of one row's open walls |
| LegacyGreedy.ScanWalls | src/game/ai.rs:46-62 | the nested loop collects exactly what `collect_wall_statistics` collects |
| LegacyGreedy.NextMove | src/game/ai.rs:39-91 | the older player moves exactly as the greedy player does, so the greedy lemmas hold for it |
| Region.ClickPoints | src/ai/mod.rs:62-68 | a CPU click never lowers the CPU's points and gives no other player any; only Ok(true) raises them |
| Region.OpenClickPoints | src/ai/mod.rs:62-68 | a CPU click on an open wall raises only the CPU's points, by at least one exactly when the result is Ok(true) |
| Region.Follow | src/ai/mod.rs:63-72 | the greedy follow-up is an open wall while the board is not full |
| Region.ClickOwnedStep | src/ai/mod.rs:68 | a CPU click adds exactly the cells it completes to the points, and the owned cells never outnumber the cells |
| Region.WhileCompleting | src/ai/mod.rs:68-73 | the loop keeps the dimensions and the other players' points, never lowers the CPU's points, and gains no more than the cells nobody owned |
| Region.WhileCompletingStops | src/ai/mod.rs:68 | a click that completes nothing, or fails, ends the loop |
| Region.WhileCompletingStep | src/ai/mod.rs:68-73 | a click with Ok(true) is followed by the greedy move on the new board |
| Region.RegionRun | src/ai/mod.rs:55-73 | the simulation keeps the dimensions and the other players' points, never lowers the CPU's points, and gains no more than the cells nobody owned |
| Region.RegionSize | src/ai/mod.rs:54-75 | the region size is a gain in CPU points that fits in the cells nobody owns yet |
| Region.SafeWallRegion | src/ai/mod.rs:62-74 | a safe wall opens a region of size 0 |
| Region.QuietRegion | src/ai/mod.rs:62-74 | a wall that is not the counter-2 case and completes nothing opens nothing |
| Region.CompletingWallRegion | src/ai/mod.rs:68-74 | a completing wall has a region of at least 1 |
| Region.RegionSizes | src/ai/mod.rs:86 | one size per wall, each fitting in the free cells |
| Region.RegionSizesAreRegionSizes | src/ai/mod.rs:86 | each listed size is the region size of its wall from a later draw |
| Region.GroupBySize | src/ai/mod.rs:87-92 | every wall is in the bucket of its size, buckets are non-empty, and a bucket holds only walls of that size |
| Region.GroupedWalls | src/ai/mod.rs:77-93 | the buckets hold exactly the kept walls |
| Region.LargestBucket | src/ai/region_counting_player.rs:17 | a wall filed under the largest key of a size-keyed map has a size no listed wall exceeds |
| Region.SmallestBucket | src/ai/region_counting_player.rs:41 | a wall filed under the smallest key has a size no listed wall undercuts |
| Region.BuildRegionSizeMap | src/ai/mod.rs:77-93 | the map holds exactly the filtered walls; the i-th filtered wall is filed under its simulated region size `RegionSizes(...)[i]`, and a wall is under key k only if k is its size; buckets are non-empty and every key fits in the cells nobody owns |
| Region.FindRegionSize | src/ai/mod.rs:54-75 | the method on a clone returns `RegionSize` of the caller's board |
| Region.RunRegion | src/ai/mod.rs:55-74 | on the clone, the points gained by the simulation |
| Region.Simulate | src/ai/mod.rs:61-73 | the in-place simulation computes `RegionRun` |
| Region.SizeOfRun | src/ai/mod.rs:74 | the region size is the CPU's gain over the run, which is never negative |
| Region.OpenRegion | src/ai/mod.rs:62-67 | the opening click of a counter-2 wall leaves the board where the loop then continues |
| Region.ClickWhileCompleting | src/ai/mod.rs:68-73 | the `while let` loop computes `WhileCompleting` |
| Region.ClickAndFollow | src/ai/mod.rs:68-73 | each iteration that completes a cell clicks an open wall, so the loop terminates |
| RegionCounting.ChooseFromBucket | src/ai/region_counting_player.rs:18-21 | the choice is a wall of the bucket |
| RegionCounting.MapEmptyIff | src/ai/mod.rs:77-93 | the region map is empty iff no wall passes the filter |
| RegionCounting.RegionChoice | src/ai/region_counting_player.rs:13-47 | the choice is a collected wall: with completing walls present, one from the bucket whose key no key exceeds; else a safe wall if any; else a giving wall from the bucket whose key no key undercuts |
| RegionCounting.CompletingMap | src/ai/region_counting_player.rs:13-14 | the map of completing walls keeps exactly them, each under its simulated region size |
| RegionCounting.GivingMap | src/ai/region_counting_player.rs:38-39 | the map of giving walls keeps exactly them, each under its simulated region size |
| RegionCounting.Choice | src/ai/region_counting_player.rs:7-47 | on an unfinished board the chosen statistic is one of the collected open walls; its tiers are stated by the three lemmas below |
| RegionCounting.NextMove | src/ai/region_counting_player.rs:7-50 | None iff every wall is clicked; any move is an open wall |
| RegionCounting.NextMoveTakesLargestRegion | src/ai/region_counting_player.rs:13-28 | when some wall completes a cell, the move completes one, and its simulated region size is at least that of every completing wall |
| RegionCounting.NextMoveSafe | src/ai/region_counting_player.rs:31-35 | otherwise a safe wall is taken when one exists |
| RegionCounting.ThirdTier | src/ai/region_counting_player.rs:38-47 | otherwise the choice is a giving wall whose simulated region size is at most that of every giving wall |
| RegionCounting.NextMoveGivesSmallestRegion | src/ai/region_counting_player.rs:38-47 | when every open wall gives a cell away, the move's simulated region size is at most that of every giving wall |
| Extrema.MaxKey | src/ai/region_counting_player.rs:17 | the largest key is a key and at least every key |
| Extrema.MinKey | src/ai/region_counting_player.rs:41 | the smallest key is a key and at most every key |
| Scores.Wrap32 | src/ai/minmax_player.rs:161 | two's-complement wrap-around to `i32`: in range, congruent, and the identity on `i32` values |
| Scores.Evaluate | src/ai/minmax_player.rs:159-162 | the `i32` of cpu_points − player1_points (the same `evaluate` as src/ai/minimax_player.rs:81-84), which equals that difference when the points fit |
| Scores.EvaluateIsLead | src/ai/minmax_player.rs:159-162 | on a consistent board the evaluation is the CPU's lead, bounded by the number of cells |
| Minimax.Value | src/ai/minimax_player.rs:15-79 | the reference minimax value of a node is an `i32` |
| Minimax.Best | src/ai/minimax_player.rs:28-75 | the best of the first n scores for the side, from i32::MIN or i32::MAX, bounds every one of them |
| Minimax.AfterClickIs | src/ai/minimax_player.rs:41-52 | after a bonus click the value keeps depth, side and player; after a normal click it uses depth−1, the other side and the opponent |
| Minimax.ChildValueOf | src/ai/minimax_player.rs:36-52 | a child is a playable board with one open wall fewer, and its value follows the click's bonus flag |
| Minimax.MaxRound | src/ai/minimax_player.rs:58-67 | a maximizing round keeps the fail-soft bounds of the best score |
| Minimax.MinRound | src/ai/minimax_player.rs:68-75 | a minimizing round mirrors that |
| Minimax.LoopStart | src/ai/minimax_player.rs:28-33 | the loop invariant holds before the first move |
| Minimax.LoopKeep | src/ai/minimax_player.rs:58-75 | a score that does not beat the best keeps the best move |
| Minimax.LoopImprove | src/ai/minimax_player.rs:58-75 | a score that beats the best makes that move the best and updates the window |
| Minimax.LoopDone | src/ai/minimax_player.rs:64-78 | at the end of the loop or at the cut `beta <= alpha` the result satisfies the search contract |
| Minimax.Minimax | src/ai/minimax_player.rs:15-79 | the search returns an `i32` score that is fail-soft against the minimax value in the window (alpha, beta); a terminal node returns its evaluation and no move; otherwise the move is the first one strictly beating all earlier ones |
| Minimax.Play | src/ai/minimax_player.rs:36-39 | the clone's click succeeds and leaves it at `Click` of the board |
| Minimax.Continue | src/ai/minimax_player.rs:41-52 | the recursive call after a click, with the depth, side and player the bonus flag prescribes |
| Minimax.SearchMoves | src/ai/minimax_player.rs:35-78 | the loop over `available_moves` of a node that is not terminal returns an `i32` score, fail-soft against the minimax value in (alpha, beta), with the first move strictly beating the earlier ones |
| Minimax.SearchList | src/ai/minimax_player.rs:35-78 | the loop over a list of open moves meets the search contract for that list |
| Minimax.NextMove | src/ai/minimax_player.rs:94-100 | None on a terminal root; otherwise a move iff the root value beats i32::MIN, and then an open wall that first attains the root value |
| Minmax.RowBits | src/ai/minmax_player.rs:50-52 | the key holds every wall's click flag |
| Minmax.WallBits | src/ai/minmax_player.rs:50-52 | the key keeps one row of flags per wall row |
| Minmax.RowBitsCount | src/ai/minmax_player.rs:50-52 | the open flags of a row count its open walls |
| Minmax.WallBitsCount | src/ai/minmax_player.rs:50-52 | the open flags of the key count the open walls |
| Minmax.KeyOfOpenWalls | src/ai/minmax_player.rs:48-60 | a wall is open in the key iff it is open on the board, so the key measures the open walls |
| Minmax.Cache.constructor | src/ai/minmax_player.rs:167 | the search starts from an empty cache |
| Minmax.Cache.Insert | src/ai/minmax_player.rs:154-156 | an insert (here and at the leaf, line 84) replaces the one entry and keeps every answer sound |
| Minmax.ChildKeyOf | src/ai/minmax_player.rs:95-125 | the key of a child has one open wall fewer and the depth, side and player the bonus flag prescribes |
| Minmax.TiedSnoc | src/ai/minmax_player.rs:131-133 | a new child scoring the best is appended to the tied moves |
| Minmax.TiedAmong | src/ai/minmax_player.rs:131-137 | tied moves are explored moves |
| Minmax.TiedHas | src/ai/minmax_player.rs:131-133 | every explored move scoring the best is tied |
| Minmax.BestAttained | src/ai/minmax_player.rs:134-151 | the best score is attained by an explored child |
| Minmax.LoopStart | src/ai/minmax_player.rs:88-93 | the loop invariant holds before the first move |
| Minmax.LoopKeep | src/ai/minmax_player.rs:131-133 | a score that does not beat the best keeps the window and may join the tied moves |
| Minmax.LoopImprove | src/ai/minmax_player.rs:134-151 | a score that beats the best becomes the best, resets the tied moves and moves alpha up (or beta down) |
| Minmax.LoopDone | src/ai/minmax_player.rs:140-154 | at the end of the loop or at the cut `beta < alpha` the answer is the outcome of the explored children |
| Minmax.OutcomeSound | src/ai/minmax_player.rs:131-156 | an answer built from explored children has an `i32` score and names only open walls |
| Minmax.AnswerCached | src/ai/minmax_player.rs:78-80 | a cached node's answer is returned unchanged, with the cache untouched |
| Minmax.AnswerLeaf | src/ai/minmax_player.rs:82-86 | a leaf is answered by its evaluation and no move, and the answer is cached |
| Minmax.AnswerSearched | src/ai/minmax_player.rs:88-156 | a searched node is answered by the outcome of its loop, and the answer is cached |
| Minmax.Minmax | src/ai/minmax_player.rs:69-157 | each call leaves the answer in the cache under the node's key, keeps every old entry, and answers a cached node unchanged, a leaf by its evaluation with no move, and any other node by the loop's rules over the children it explored |
| Minmax.SearchMoves | src/ai/minmax_player.rs:95-152 | the loop over `available_moves` of a node that is not terminal keeps every old cache entry, caches only nodes with fewer open walls, and answers with the outcome of the children it explored |
| Minmax.SearchList | src/ai/minmax_player.rs:95-152 | the loop over the open moves, with alpha only rising and beta only falling, yields the outcome of the explored prefix |
| Minmax.Update | src/ai/minmax_player.rs:131-151 | one round of the loop's bookkeeping keeps the loop invariant or stops exactly at `beta < alpha` |
| Minmax.RootExploresAll | src/ai/minmax_player.rs:168-173 | at the root the window (i32::MIN, i32::MAX) never closes, so every move is explored |
| Minmax.NextMove | src/ai/minmax_player.rs:166-177 | the search starts from (max_depth, maximizing, CPU, i32::MIN, i32::MAX); the move is None iff the root is terminal and otherwise a tied best move of the root, an open wall |
| Minmax.HardMoveAsWritten | src/ai/prelude.rs:13 | the hard player as built never names a move |
| Minmax.FreshBoardIsOpen | src/ai/prelude.rs:13 | a fresh one-cell board has open walls, so that answer is wrong there |
| Minmax.NewPlayer | src/ai/minmax_player.rs:63-67 | carried by Minmax.HardMove: the player built with depth `MAX_MINMAX_DEPTH` names an open wall exactly when the game is not over |
| Minmax.HardMove | src/ai/minmax_player.rs:63-67 | with the depth of `MinmaxPlayer::new`, the hard player names an open wall exactly when the game is not over |
| Renderer.Digits | src/rendering/board_renderer.rs:358-361 | one digit per power, each the digit of its bit |
| Renderer.GetBitMask | src/rendering/board_renderer.rs:357-362 | four characters, character i being '1' iff n & [8,4,2,1][i] > 0 and '0' otherwise |
| Renderer.BitMaskIsBinary | src/rendering/board_renderer.rs:370-390 | for n below 16 the mask read as binary is n, the masks "0000" to "1111" |
| Renderer.BitMaskInjective | src/rendering/board_renderer.rs:370-390 | distinct masks below 16 give distinct strings |
| Renderer.SpritePathInjective | src/rendering/board_renderer.rs:277 | distinct masks give distinct sprite paths |
| Renderer.JointSpritePaths | src/rendering/board_renderer.rs:276-278 | there are 16 joint sprites |
| Renderer.JointSpritePathsDistinct | src/rendering/board_renderer.rs:276-278 | the 16 sprite files are distinct |
| Renderer.JointSprite | src/rendering/board_renderer.rs:169-170 | a joint's mask indexes one of the 16 sprites, that of its four flags |
| Renderer.JointMaskFromBits | src/rendering/board_renderer.rs:169-170 | every sprite index is the mask of some joint |

## Left out

- Rendering, scenes, menus, the controller, the state machine, file I/O and the web service worker are not part of this model. Neither is `src/main.rs`.
- Grids without cells (width 0 or height 0) are excluded by `AI.Playable`, so the players (Greedy.NextMove, LegacyGreedy.NextMove, RegionCounting.NextMove, Minimax.Minimax, Minimax.NextMove, Minmax.Minmax, Minmax.NextMove) are not modelled on them. When only one of the two is 0, every open wall has no cell and `collect_wall_statistics` panics at src/ai/mod.rs:109. The 0×0 grid has no walls at all, and every player would answer None on it.
- Game.Opponent: Player2 has no opponent; the source aborts (`unimplemented!`), and the model requires the player not to be Player2.
- Randomness (`choose`, `choose_stable`) is a draw parameter. Every element of the filtered set is reachable by some draw; the distribution is not modelled.
- `DefaultHasher` and its `u64` hash are modelled by the exact key it hashes. Hash collisions between two keys are not modelled.
- The grids of the cache key keep their rows, while the hasher sees them flattened. For a fixed board size the two carry the same information.
- `MAX_MINMAX_DEPTH` lives in a constants file that is not part of this model. It is a parameter (`Minmax.HardMove`, `Minmax.NewPlayer`).
- Minmax.Minmax: the cache key leaves out the window (alpha, beta), so an answer found in one window can be reused in another. The model states what each answer is made of (the cached scores of the explored children and the loop's rules), not that it is the game value of the node.
- `src/ai/minimax_player.rs` is not declared in the module tree of `src/ai/mod.rs`, so the program never uses it. It is still modelled, as a second search.
- Scores are unbounded. `usize` points cannot overflow on any board that fits in memory; the `i32` conversions of `evaluate` are wrapped explicitly.
- The `?` on each `writeln!` of `Display` can only fail when the formatter fails. Formatter errors are not modelled, and `Display` always succeeds here.
- `FromStr` indexes the board directly, and the source panics on an out-of-range index. The model returns `Err(IndexOutOfBounds)` in that case.
- `FromStr` measures lines with `len()`, which counts bytes. The model counts characters, and the two agree on the ASCII text that `Display` writes.
- Text.Decode: a decoded board has zero statistics and no winner. The source does not recount points from the owners, so scores do not survive a round trip. The round trip restores walls and owners only, which is what the code does.
- Text.DecodeEncode: the counters and joint flags of a decoded board are those that replaying its clicked walls produces. The model states only walls, owners and dimensions, not that counters and joint flags equal the original's.
- The tests that fix outcomes on concrete boards are not restated as lemmas. That covers the 1×2 greedy boards, the 3×3 region sizes, the region-counting sets and the minimax boards read from text. The general tier, region and search lemmas above are what those tests sample.
- The "Minimax beats Greedy/Region" game tests are empirical outcomes of deep searches and are not modelled.

## Findings

| source | as written | input that shows it | evidently intended | confidence | as-written member | corrected member |
|---|---|---|---|---|---|---|
| src/ai/prelude.rs:13 | the hard difficulty builds `MinmaxPlayer::default()`, whose derived `Default` sets `max_depth` to 0, so every root is terminal and `next_move` returns None | a fresh 1×1 board: four walls are open and the hard player names no move | build the player with `MinmaxPlayer::new()`, searching to `MAX_MINMAX_DEPTH`, as the tests do | not executed | Minmax.HardMoveAsWritten, Minmax.FreshBoardIsOpen | Minmax.HardMove |
