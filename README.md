# Gomoku-MCTS: a verified model of the board engine and the search player

This project models in Dafny the core of a Gomoku player built on a Go
board engine. It covers three parts:

- `SimpleGoBoard` (`gomoku4/simple_board.py`). This is a Go board stored as
  one flat array of cells, with a frame of BORDER cells around the board.
  - Under the Go rules, it flood-fills blocks, finds liberties, removes
    captured blocks, refuses suicide and records the single-stone ko point.
  - Under the Gomoku rules, a stone goes on any EMPTY point and the game
    ends with five in a row.
  - Its tactical pattern scanner walks every line of the board and collects
    the points that win, block a win, make an open four or block one.
- The Monte Carlo tree search player `MCTS` (`gomoku4/mcts_player.py`).
  - It keeps per-(player, move) visit and win tables.
  - It rotates the turn list, chooses moves (near a stone and without
    statistics first), and expands one new table entry per simulation.
  - It back-propagates the result, picks the final move by win ratio, and
    searches a width x height board for five in a row.
- The playout helpers of `gomoku4/play_for_node_eva.py`. These are undo,
  play_move, game_result, policy_moves, the random `playGame` and the
  pattern-guided `do_playout`, which restores the board it was given.

The modules follow that structure:

| module | file | contents |
|---|---|---|
| `BoardUtil` | `board_util.dfy` | colour constants, `opponent`, `where1d` |
| `Layout` | `layout.dfy` | the padded point layout and the neighbour lists |
| `Blocks` | `blocks.dfy` | blocks, liberties and captures on a snapshot of the cells |
| `FiveInRow` | `five_in_row.dfy` | runs of one colour and five in a row |
| `Patterns` | `patterns.dfy` | the pattern tables and what the pattern walk collects |
| `SimpleBoard` | `simple_board.dfy` | class `SimpleGoBoard` on an `array<int>` |
| `LibertyHints` | `liberty_hints.dfy` | the `liberty_of` quick exit of the capture check, and where it goes wrong |
| `Mcts` | `mcts.dfy` | class `GridBoard` (the board the search plays on), class `MCTS` |
| `Playout` | `playout.dfy` | the playout helpers |

Where the source changes state, the model does too. The board's cells are
an `array<int>` that the methods update in place. `MCTS` is a class whose
`plays`, `wins` and `maxDepth` fields `RunSimulation` updates. The turn
list is an `array<int>` that `GetPlayer` rotates. Each such method is
proved against ghost functions that specify it:

- `GoLegal`, `GoAfter` and `GoKo` give the Go move rule.
- `FiveAt` and `HasFive` give five in a row.
- `Found` and `Scanned` give what the pattern walk collects.
- `BumpPlays`, `BumpWins`, `Expanded` and `FirstNew` give the statistics
  updates.
- `Place` and `RotatedN` give the simulated moves and the turn order.

Lemmas then prove properties of these functions.

Constants assumed for the imported `board_util` module: EMPTY = 0, BLACK = 1,
WHITE = 2, BORDER = 3, MAXSIZE = 25, NULLPOINT = 0 (declared in
`LibertyHints`, the only module that uses it), and PASS is `None`, modelled as
`Move.Pass`. `opponent` swaps BLACK and WHITE. `where1d` lists the indices
where a mask holds, in ascending order.

## Model

| member | source | states |
|---|---|---|
| `SimpleBoard.SimpleGoBoard.constructor` | gomoku4/simple_board.py:67-72 | a new board of the given size has BLACK to move, no ko point, EMPTY cells exactly on the board and BORDER elsewhere |
| `SimpleBoard.SimpleGoBoard.Reset` | gomoku4/simple_board.py:74-89 | reset builds the padded layout: size * size + 3 * (size + 1) cells, EMPTY exactly at the on-board points, the neighbour table, BLACK to move, no ko point |
| `SimpleBoard.SimpleGoBoard.RowStart` | gomoku4/simple_board.py:130-133 | row_start(row) is the point of column 1 of that row |
| `SimpleBoard.SimpleGoBoard.RowSpan` | gomoku4/simple_board.py:142-144 | the slice written for a row holds exactly the on-board points of that row |
| `SimpleBoard.SimpleGoBoard.InitializeEmptyPoints` | gomoku4/simple_board.py:135-144 | afterwards a cell is EMPTY exactly when it is on the board, and BORDER otherwise |
| `SimpleBoard.SimpleGoBoard.OnBoardNeighbors` | gomoku4/simple_board.py:146-151 | the result is the four orthogonal neighbours that are not BORDER, in the order left, right, down, up |
| `SimpleBoard.SimpleGoBoard.InitializeNeighbors` | gomoku4/simple_board.py:153-163 | neighbors[p] is the on-board neighbour list of every on-board p, and empty for BORDER points |
| `SimpleBoard.SimpleGoBoard.NeighborIffAdjacent` | gomoku4/simple_board.py:153-163 | x is in neighbors[p] exactly when x is an orthogonal neighbour of p that lies on the board |
| `SimpleBoard.SimpleGoBoard.Copy` | gomoku4/simple_board.py:120-128 | the copy is a fresh board with its own array, equal cells, equal size, player to move and ko point |
| `SimpleBoard.SimpleGoBoard.GetColor` | gomoku4/simple_board.py:20-21 | the colour is BORDER exactly off the board |
| `SimpleBoard.SimpleGoBoard.NeighborsOfColor` | gomoku4/simple_board.py:320-326 | the result holds exactly the neighbours of the given colour |
| `SimpleBoard.SimpleGoBoard.FindNeighborOfColor` | gomoku4/simple_board.py:328-333 | a returned point is a neighbour of the colour; None exactly when no neighbour has it |
| `SimpleBoard.SimpleGoBoard.StoneHasLiberty` | gomoku4/simple_board.py:192-194 | true exactly when some neighbour is EMPTY |
| `SimpleBoard.SimpleGoBoard.IsSurrounded` | gomoku4/simple_board.py:182-190 | true exactly when every neighbour has the colour |
| `SimpleBoard.SimpleGoBoard.CountDiagonals` | gomoku4/simple_board.py:175-179 | false_count is the number of opponent diagonals, at_edge is 1 exactly when a diagonal is BORDER |
| `SimpleBoard.SimpleGoBoard.IsEye` | gomoku4/simple_board.py:165-180 | an eye is a point surrounded by the colour with at most 1 - at_edge opponent diagonals |
| `SimpleBoard.SimpleGoBoard.BlockOf` | gomoku4/simple_board.py:222-240 | the marker holds exactly the points connected to the stone through stones of its colour |
| `SimpleBoard.SimpleGoBoard.GetLiberty` | gomoku4/simple_board.py:196-206 | a returned liberty is EMPTY and next to a stone of the block; None exactly when no stone of the block has an EMPTY neighbour |
| `SimpleBoard.SimpleGoBoard.HasLiberty` | gomoku4/simple_board.py:208-220 | true exactly when some stone of the block has an EMPTY neighbour |
| `SimpleBoard.SimpleGoBoard.BlockLibertyIff` | gomoku4/simple_board.py:208-220 | for the marker of a block, the liberty test on the marker is the liberty of the block |
| `SimpleBoard.SimpleGoBoard.StoneLibertyIsBlockLiberty` | gomoku4/simple_board.py:242-248 | the quick exit on the stone's own liberty is sound: its block has a liberty |
| `SimpleBoard.SimpleGoBoard.DetectCapture` | gomoku4/simple_board.py:250-258 | true exactly when the block on the point has no liberty |
| `SimpleBoard.SimpleGoBoard.DetectCaptures` | gomoku4/simple_board.py:51-58 | true exactly when some neighbouring opponent block has no liberty |
| `SimpleBoard.SimpleGoBoard.SingleCaptureIff` | gomoku4/simple_board.py:273-278 | the capture list has one element exactly when the block is a single stone |
| `SimpleBoard.SimpleGoBoard.RemoveCaptures` | gomoku4/simple_board.py:273-275 | the cells become those with the block of the stone removed |
| `SimpleBoard.SimpleGoBoard.DetectAndProcessCapture` | gomoku4/simple_board.py:260-279 | a block with a liberty is left alone (None); a block without one is removed, and the point is returned exactly when the block was a single stone |
| `LibertyHints.ProcessCaptureAsWritten` | gomoku4/simple_board.py:242-279 | the capture with the liberty_of quick exit: a block with a liberty is never removed, and anything removed is the block of the point |
| `LibertyHints.SoundHintAgrees` | gomoku4/simple_board.py:242-248 | when the recorded liberty, while EMPTY, is a liberty of the block, the quick exit fires only for a block that has a liberty, so a block without one is removed exactly as the hint-free capture removes it |
| `LibertyHints.WhiteOnEightCapturesNothing` | gomoku4/simple_board.py:51-58 | in the example, _detect_captures(8, BLACK) finds no BLACK neighbour without a liberty |
| `LibertyHints.WhiteOnEight` | gomoku4/simple_board.py:26-48 | in the example, is_legal(8, WHITE) captures nothing, the stone has no EMPTY neighbour and its block has a liberty, so _has_liberty records one |
| `LibertyHints.BlackOnEight` | gomoku4/simple_board.py:296-306 | in the example, after BLACK plays 8, the WHITE stone on 7 is a neighbour whose block has no liberty |
| `LibertyHints.StaleHintKeepsDeadStone` | gomoku4/simple_board.py:208-220 | whatever liberty is_legal(8, WHITE) records, play_move(8, BLACK)'s capture check keeps the WHITE stone on 7 that has no liberty |
| `SimpleBoard.SimpleGoBoard.PlaceAndCapture` | gomoku4/simple_board.py:300-307 | after placing, the cells are the placed cells with exactly the neighbouring opponent blocks without liberty removed; the single captures are listed in neighbour order |
| `SimpleBoard.SimpleGoBoard.CheckLiberty` | gomoku4/simple_board.py:308-311 | the suicide test is true exactly when the block of the placed stone has a liberty |
| `SimpleBoard.SimpleGoBoard.TryPlace` | gomoku4/simple_board.py:298-316 | legal exactly when GoLegal; then the cells are GoAfter and the ko point is GoKo; an illegal stone is taken back, leaving the cells unchanged |
| `SimpleBoard.SimpleGoBoard.PlayMove` | gomoku4/simple_board.py:281-318 | a pass is legal, clears the ko point and passes the turn. A stone is legal exactly when its point is EMPTY, is not the ko point and GoLegal holds; then captures are removed, the ko point is set and the turn passes, and an illegal move changes nothing |
| `SimpleBoard.SimpleGoBoard.PlacedLegal` | gomoku4/simple_board.py:40-47 | with the stone placed, legal exactly when it captures something or its block has a liberty |
| `SimpleBoard.SimpleGoBoard.IsLegal` | gomoku4/simple_board.py:26-49 | is_legal agrees with play_move's legality (the same GoLegal), and leaves the cells as they were |
| `SimpleBoard.SimpleGoBoard.GetEmptyPoints` | gomoku4/simple_board.py:60-65 | exactly the EMPTY points, ascending |
| `SimpleBoard.SimpleGoBoard.IsLegalGomoku` | gomoku4/simple_board.py:364-368 | legal exactly on an EMPTY point, which is always on the board |
| `SimpleBoard.SimpleGoBoard.PointsOf` | gomoku4/simple_board.py:439-440 | exactly the points of the colour, ascending |
| `SimpleBoard.SimpleGoBoard.PlayMoveGomoku` | gomoku4/simple_board.py:370-381 | succeeds exactly on an EMPTY point; then only that cell changes, to the colour, and the turn passes; otherwise nothing changes |
| `SimpleBoard.SimpleGoBoard.CountAlong` | gomoku4/simple_board.py:392-399 | the count grows by the run of the stone's colour in the direction, stopping at 5 |
| `SimpleBoard.SimpleGoBoard.DirectionCheck` | gomoku4/simple_board.py:383-411 | true exactly when the two walks along the line reach five stones of the colour |
| `SimpleBoard.SimpleGoBoard.PointCheckGameEndGomoku` | gomoku4/simple_board.py:413-433 | true exactly when the stone lies in a five along one of the four directions |
| `SimpleBoard.SimpleGoBoard.ScanForFive` | gomoku4/simple_board.py:442-448 | scanning the ascending stone list finds a five exactly when the colour has one |
| `SimpleBoard.SimpleGoBoard.CheckGameEndGomoku` | gomoku4/simple_board.py:435-450 | WHITE wins if it has a five; otherwise BLACK wins if it has one; otherwise (False, None) |
| `SimpleBoard.SimpleGoBoard.RecordMatch` | gomoku4/simple_board.py:471-476 | for the first table holding the window read so far, each designated offset adds its EMPTY point to that category only |
| `SimpleBoard.SimpleGoBoard.CheckPattern` | gomoku4/simple_board.py:470-492 | the walk from a start point adds to each category exactly the points designated by the windows of length 0..9 along the direction that stay inside the array |
| `SimpleBoard.SimpleGoBoard.ScanPatterns` | gomoku4/simple_board.py:514-518 | the double loop over points and the four directions collects exactly Scanned |
| `SimpleBoard.SimpleGoBoard.FirstCategory` | gomoku4/simple_board.py:520-521 | the loop stops at the first non-empty category, or at 4 |
| `SimpleBoard.SimpleGoBoard.GetPatternMoves` | gomoku4/simple_board.py:494-525 | the category is the first one with a point, all earlier ones being empty; (4, None) when none has a point; every move is an EMPTY point |
| `SimpleBoard.SimpleGoBoard.ListSolvePoint` | gomoku4/simple_board.py:527-554 | the same over the non-BORDER points with the solver's tables, returning only the moves, or None |
| `Layout.Neighbors4` | gomoku4/simple_board.py:335-337 | the four orthogonal neighbours of an on-board point lie inside the array |
| `Layout.DiagNeighbors` | gomoku4/simple_board.py:339-344 | the four diagonal neighbours of an on-board point lie inside the array |
| `Layout.NbrListMembership` | gomoku4/simple_board.py:146-151 | a point is in a neighbour list exactly when both are on the board and orthogonally adjacent |
| `Layout.NbrSymmetric` | gomoku4/simple_board.py:153-163 | the neighbour relation is symmetric |
| `Layout.OnBoardBounds` | gomoku4/simple_board.py:85-86 | the 3 * (size + 1) padding keeps every step from an on-board point inside the array |
| `Layout.CoordToPointOnBoard` | gomoku4/simple_board.py:130-133 | (row, col) with 1 <= row, col <= size is on the board and is recovered by divmod(point, NS) |
| `Blocks.ConnectedSym` | gomoku4/simple_board.py:222-240 | being in the same block is symmetric |
| `Blocks.ConnectedTrans` | gomoku4/simple_board.py:222-240 | being in the same block is transitive |
| `Blocks.SurvivorLiberty` | gomoku4/simple_board.py:303-307 | removing other captured blocks of the same colour does not change whether a remaining block has a liberty, so the one-by-one capture loop agrees with removing all dead blocks at once |
| `Blocks.RemoveCompose` | gomoku4/simple_board.py:303-307 | removing blocks one after another equals removing them together |
| `Blocks.ScanDone` | gomoku4/simple_board.py:303-307 | after the loop the cells have exactly the dead neighbouring blocks removed, and the single captures are listed; no capture leaves the cells as placed, a capture leaves an EMPTY neighbour |
| `FiveInRow.TwoWalks` | gomoku4/simple_board.py:389-411 | the count of the two walks never exceeds 5, and reaches 5 exactly when the stone lies in a five along the line |
| `FiveInRow.FiveIffWindow` | gomoku4/simple_board.py:383-411 | lying in a five means one of the five windows of five cells through the stone is all of its colour |
| `FiveInRow.NoOverrunAfterNoFive` | gomoku4/simple_board.py:442-448 | scanning stones in ascending order, a stone reached without a five before it cannot have six in a row behind it, so the count-to-5 stop is exact |
| `FiveInRow.NoneInFive` | gomoku4/simple_board.py:442-450 | when no listed stone lies in a five, the colour has no five |
| `FiveInRow.FiveWitness` | gomoku4/simple_board.py:442-448 | a listed stone in a five means the colour has a five |
| `Patterns.Piece` | gomoku4/simple_board.py:481-490 | a cell reads '.' exactly when EMPTY, 'x' for the colour, 'B' for BORDER, 'o' otherwise |
| `Patterns.Category` | gomoku4/simple_board.py:471-476 | the first table holding the window, with no earlier table holding it |
| `Patterns.MoveTablesWellFormed` | gomoku4/simple_board.py:503-508 | every offset of get_pattern_moves' tables designates a '.' of its key, and every key holds a stone |
| `Patterns.SolveTablesWellFormed` | gomoku4/simple_board.py:536 | the same for list_solve_point's tables |
| `Patterns.FoundStep` | gomoku4/simple_board.py:470-492 | the walk's points from window n are those at window n plus those further on |
| `Patterns.FoundIsEmpty` | gomoku4/simple_board.py:474 | with well-formed tables, every point the walk adds is an EMPTY cell of the board |
| `Patterns.ScannedIsEmpty` | gomoku4/simple_board.py:514-518 | every point the scan collects is EMPTY |
| `Patterns.FirstNonEmpty` | gomoku4/simple_board.py:520-525 | the index of the first non-empty set, all earlier sets empty |
| `Patterns.NoStonesNoMatch` | gomoku4/simple_board.py:494-525 | a board without stones matches no pattern |
| `Playout.FullIffNoEmpties` | gomoku4/play_for_node_eva.py:20-21 | the board is full exactly when there is no EMPTY point |
| `Playout.Undo` | gomoku4/play_for_node_eva.py:11-13 | the cell becomes EMPTY and the player to move flips |
| `Playout.PlayMove` | gomoku4/play_for_node_eva.py:15-16 | play_move_gomoku's effect: on an EMPTY point the colour is placed and the turn passes, otherwise nothing changes |
| `Playout.PlayThenUndo` | gomoku4/play_for_node_eva.py:11-16 | undo is the inverse of play_move for the player to move on an EMPTY point |
| `Playout.GameResult` | gomoku4/play_for_node_eva.py:18-27 | the winner when a five exists (WHITE checked first), 'draw' exactly when there is no five and the board is full, None otherwise |
| `Playout.NoEmptyPointsIffFull` | gomoku4/play_for_node_eva.py:20-21 | get_empty_points is empty exactly when no cell is EMPTY |
| `Playout.GenerateLegalMovesGomoku` | gomoku4/play_for_node_eva.py:38 | exactly the EMPTY points |
| `Playout.PolicyMovesAsWritten` | gomoku4/play_for_node_eva.py:29-41 | the category name of get_pattern_moves' result; with no pattern, ('Random', None). This assumes get_pattern_moves reaches the pattern walker of simple_board.py line 470 |
| `Playout.PolicyOnEmptyBoard` | gomoku4/play_for_node_eva.py:36-41 | on an empty board of any size, policy_moves as written yields ('Random', None) although size * size points are EMPTY (with the line-470 pattern walker in place) |
| `Playout.PolicyMoves` | gomoku4/play_for_node_eva.py:29-41 | the first category's pattern points, or every EMPTY point when there is no pattern; every move is EMPTY, and there is a move unless the board is full. The set depends only on the cells and the player to move (`PolicyChoices`) |
| `Playout.PatternSetsOfBoard` | gomoku4/simple_board.py:494-525 | the four sets get_pattern_moves records are a function of the cells and the player to move alone |
| `Playout.ChoosePolicyMove` | gomoku4/play_for_node_eva.py:95-96 | the move chosen is one policy_moves offers the player to move, on an EMPTY cell |
| `Playout.PlayPolicyMove` | gomoku4/play_for_node_eva.py:95-97 | the player to move fills one EMPTY cell that policy_moves offered, the turn passes and one EMPTY cell fewer remains |
| `Playout.ReplayStep` | gomoku4/play_for_node_eva.py:95-98 | one more move of the run puts the stone of the player whose turn it is on its cell |
| `Playout.PolicyRunStep` | gomoku4/play_for_node_eva.py:93-98 | a move offered by policy_moves in a position without a result extends a run of such moves |
| `Playout.PlayRunMove` | gomoku4/play_for_node_eva.py:95-99 | one turn of the loop: the position becomes the replay of the moves so far, and every move so far was offered by policy_moves in turn |
| `Playout.Simulate` | gomoku4/play_for_node_eva.py:92-99 | the loop ends with a result (terminates because each move fills a cell); the moves, in order, went on cells that were EMPTY, and nothing else changed. The final cells are the moves replayed in alternating turns from the player to move, each move one that policy_moves offered in a position without a result, and the result is game_result of those cells |
| `Playout.UndoMoves` | gomoku4/play_for_node_eva.py:100-101 | undoing the moves last first restores the cells and the player to move |
| `Playout.DoPlayout` | gomoku4/play_for_node_eva.py:90-108 | the board and the player to move are restored. The outcome scored is game_result of the position reached by the moves played (returned as ghost `moves`): each went on an EMPTY cell, in alternating turns from the player to move, and was offered by policy_moves in a position that had no result yet. The score is 1.0 for a win of color_to_play, 0.0 for a draw, -1.0 for a win of the opponent; a finished position is scored as it stands |
| `Playout.GenerateRandomMoveGomoku` | gomoku4/play_for_node_eva.py:69 | some EMPTY point, or PASS exactly when the board is full |
| `Playout.PlayGame` | gomoku4/play_for_node_eva.py:57-88 | min(limit, #EMPTY) moves are played, each on a point EMPTY at the start, with no other point changed. The final board is the replay of those moves with colours alternating from the player to move, who after them is the player n turns on. The winner is check_game_end_gomoku's on the final board |
| `Playout.PlayRandomMove` | gomoku4/play_for_node_eva.py:68-71 | one turn of the loop: the player to move puts a stone on the chosen EMPTY point, the position becomes the replay of the moves so far and the turn passes |
| `Mcts.Rotated` | gomoku4/mcts_player.py:308-311 | pop(0) then append moves the head to the back |
| `Mcts.RotatedPermutes` | gomoku4/mcts_player.py:308-311 | the rotation keeps the same players |
| `Mcts.TurnOrder` | gomoku4/mcts_player.py:247-298 | after n rotations the head is players[n mod len] |
| `Mcts.FullRound` | gomoku4/mcts_player.py:308-311 | len rotations give back the turn list |
| `Mcts.GetPlayer` | gomoku4/mcts_player.py:308-311 | returns the old head and leaves the list rotated |
| `Mcts.BackPropagationKeepsStats` | gomoku4/mcts_player.py:300-306 | back-propagation keeps 0 <= wins <= plays; each visited key gains exactly 1 play, and 1 win when its player won |
| `Mcts.BackPropagationSettles` | gomoku4/mcts_player.py:300-306 | a new entry with 0 plays that was visited leaves with at least 1 play |
| `Mcts.FirstNew` | gomoku4/mcts_player.py:284-289 | the first visited key not yet in the table, all earlier ones being known; None when all are known |
| `Mcts.ExpandThenBackPropagate` | gomoku4/mcts_player.py:282-306 | one simulation adds at most one key, the first new one, which leaves with 1 play (and 1 win exactly when its player won); old keys gain a play when visited and a win when visited by the winner; 0 <= wins <= plays and "every key has a play" are kept |
| `Mcts.RunValuesSingleton` | gomoku4/mcts_player.py:371-384 | len(set(run)) == 1 exactly when all cells of the run hold the value of its first cell |
| `Mcts.Scan` | gomoku4/mcts_player.py:366-387 | returns the player of the first stone (in scan order) that starts a five in one of the four directions, or (False, -1) |
| `Mcts.ScanAsWrittenRaises` | gomoku4/mcts_player.py:371-372 | as written, indexing states with an empty cell raises before a five that exists is found |
| `Mcts.KingStep` | gomoku4/mcts_player.py:331-349 | the eight guarded additions are exactly the cells a king's step away inside the grid |
| `Mcts.RemoveWhileIterating` | gomoku4/mcts_player.py:351-354 | as written, removing while iterating keeps the element after each removed one |
| `Mcts.RemoveWhileIteratingKeeps` | gomoku4/mcts_player.py:351-354 | two adjacent cells with statistics: the second survives |
| `Mcts.SkipFilterDiffers` | gomoku4/mcts_player.py:351-355 | the as-written result differs from the filter the docstring promises |
| `Mcts.WithoutStats` | gomoku4/mcts_player.py:323-325 | exactly the listed cells without statistics |
| `Mcts.Occupied` | gomoku4/mcts_player.py:326 | exactly the grid cells not available, ascending |
| `Mcts.OccupiedAreStones` | gomoku4/mcts_player.py:358-359 | the occupied cells are exactly the occupied keys of states, and len(moved) counts them |
| `Mcts.ScanOrderIrrelevant` | gomoku4/mcts_player.py:358-387 | any listing of the occupied cells gives the same verdict, and the same player whenever every five found belongs to one player |
| `Mcts.ScanOnStones` | gomoku4/mcts_player.py:366-387 | scanning the occupied cells returns a winner exactly when some stone starts a five, the first such stone in ascending order |
| `Mcts.GridBoard.Update` | gomoku4/mcts_player.py:280 | the free cell now holds the player and leaves the availables; nothing else changes |
| `Mcts.MCTS.constructor` | gomoku4/mcts_player.py:201-210 | the player is play_turn[0], max_depth is 1, and the tables start empty as get_action makes them |
| `Mcts.MCTS.HasAWinner` | gomoku4/mcts_player.py:357-387 | fewer than n_in_row + 2 stones gives (False, -1); otherwise the player of the first stone starting a five, or (False, -1) when none does |
| `Mcts.MCTS.AddNeighbors` | gomoku4/mcts_player.py:331-349 | adds exactly the king's-step neighbours of m inside the grid |
| `Mcts.MCTS.AdjacentMoves` | gomoku4/mcts_player.py:322-355 | exactly the free cells next to a stone that have no statistics for the player |
| `Mcts.MCTS.SelectMove` | gomoku4/mcts_player.py:253-278 | the move is free; when some free cell lacks statistics the move lacks them too, and is next to a stone when there are more than n_in_row free cells and such a cell exists |
| `Mcts.MCTS.Choice` | gomoku4/mcts_player.py:271-278 | random.choice returns a member |
| `Mcts.MCTS.BackPropagate` | gomoku4/mcts_player.py:300-306 | the tables become BumpPlays/BumpWins of the visited set; visited keys not in the table are skipped |
| `Mcts.MCTS.Expand` | gomoku4/mcts_player.py:284-289 | only the first new key is added, with 0 plays and 0 wins, and max_depth becomes its step when larger |
| `Mcts.MCTS.Turn` | gomoku4/mcts_player.py:253-296 | one step: choose, play, expand, record, then stop exactly when the board is full or has a winner |
| `Mcts.MCTS.Descend` | gomoku4/mcts_player.py:247-298 | the loop plays at most max_actions moves in turn order on free cells and stops early only on a full board or a win |
| `Mcts.MCTS.RunSimulation` | gomoku4/mcts_player.py:238-306 | the moves are played in turn order on cells free at the start, at most max_actions of them, ending early only on a full board or a win. The winner is has_a_winner's on the final board. The tables are the old ones with the first new key expanded, then back-propagated. max_depth is raised to that key's step |
| `Mcts.MCTS.SelectOneMove` | gomoku4/mcts_player.py:313-320 | the free cell maximising (wins / plays, move), with unseen cells counting 0 / 1 |

## Left out

- `SimpleGoBoard` has no `liberty_of` hint array. Its `PlayMove`, `IsLegal` and `DetectAndProcessCapture` decide liberties on the cells alone, which is the behaviour the hint is meant to speed up. The source's hint can be stale after `is_legal`, and then `play_move` skips a capture (see Findings). `LibertyHints` models the hint-based check beside it.
- `list(set)` results are modelled as sets, because Python's set order is not specified. `get_pattern_moves`, `list_solve_point` and `adjacent_moves` (`Mcts.MCTS.AdjacentMoves`) return their moves as sets. The as-written removal loop of `adjacent_moves` (`Mcts.RemoveWhileIterating`) is stated for a list in any order.
- `Mcts.MCTS.HasAWinner` and `Mcts.Occupied` scan `moved` in ascending order, while the source's `list(set(...) - set(...))` order is CPython's hash order. When both players have a five, the player reported can therefore differ from the source's. `Mcts.ScanOrderIrrelevant` proves that the order changes nothing else.
- `SimpleBoard.SimpleGoBoard.DirectionCheck` and `SimpleBoard.SimpleGoBoard.PointCheckGameEndGomoku` require that no run of the colour through the point is longer than five. This drops the source's `AssertionError` (gomoku4/simple_board.py:410), which a direct call inside a longer run raises. Their only caller, `ScanForFive`, meets the requirement (`FiveInRow.ScanNoOverrun`).
- `Playout.DoPlayout` starts the alternating turns from the board's player to move, as the source does. It does not state that this is `color_to_play`, which only scores the outcome.
- `get_action` is not modelled. Its loop runs until the wall clock passes `calculation_time`, on `copy.deepcopy` copies of the board and turn list, and it prints. `RunSimulation` is the body of that loop, and its caller owns the copies.
- `SelectMove` leaves the UCB choice open. When every free move has statistics, the source takes the maximum of a floating-point formula using `log` and `sqrt`; the model only states that the move is free. `confident` is therefore unused.
- `choice`, `log` and `sqrt` are called in `mcts_player.py` but never imported. The model treats them as `random.choice`, `math.log` and `math.sqrt`, and leaves the random choice open.
- `run_simulation` binds `availables = board.get_empty_points` without calling it. The model reads it as the board's live free-cell list, the `board.availables` that `adjacent_moves` and `select_one_move` use.
- `GridBoard` stands for the board interface that `run_simulation` expects: `width`, `height`, a `states` dictionary, `availables` and `update`. That class is not part of this model. `Update`'s contract is the behaviour assumed for it.
- `Mcts.MCTS.RunSimulation`: it does not state the final rotation of `play_turn`, which its caller discards. It also does not state that intermediate positions had no winner, only the final one.
- `Mcts.MCTS.SelectOneMove` requires every table entry to have at least one play. Only an entry with 0 plays would make the source divide by zero, and `Mcts.ExpandThenBackPropagate` proves that every simulation keeps this property.
- `Mcts.Ratio`, `Mcts.MCTS.SelectOneMove`: the ratios are compared as exact reals, while Python's `/` (mcts_player.py:315-316) divides in double precision. Two distinct ratios w1/n1 and w2/n2 with wins at most plays differ by at least 1/(n1*n2), which a double near or below 1 still tells apart unless n1*n2 exceeds about 2^52. So the chosen move is the same unless a play count reaches about 2^26.
- `Mcts.MCTS.SelectOneMove`, `Mcts.MCTS.RunSimulation`, `Mcts.MCTS.Descend` require at least one free cell. On a full board the source raises `ValueError` instead: in select_one_move, `max` gets an empty sequence (mcts_player.py:314). In run_simulation, `all` over no moves is true, so the UCB branch takes `log` of an empty sum, which is 0 (mcts_player.py:255-257). The model leaves that error out rather than state it.
- `Mcts.MCTS.constructor`, `Mcts.GetPlayer`, `Mcts.MCTS.RunSimulation`, `Mcts.MCTS.Descend` require a non-empty turn list. With an empty `play_turn` the source raises `IndexError` at `play_turn[0]` (mcts_player.py:208) and at `players.pop(0)` (mcts_player.py:309).
- `solve`, `expansion`, `get_expension_score` and the second `check_pattern` (gomoku4/simple_board.py:566) are not modelled. They belong to the alpha-beta solver, which is not part of this model. The second `check_pattern` also shadows the pattern walker of line 470, which `get_pattern_moves` needs, so the model keeps the walker.
- The `index` table set by `reset` is not modelled, because only the unmodelled `get_expension_score` reads it.
- The `flag` argument of `check_pattern` is not modelled. It is never set, because the line that sets it is commented out, so the breaks that test it never happen.
- `_point_to_coord`, `pt`, `_neighbors` as a method, and the dead `Player`/`Node`/`Record`/`AI` code inside the string literal of mcts_player.py are not modelled.
- `print` is not modelled. In `playGame` the illegal-move message is never printed, because every generated move is EMPTY.
- `board_util` is not part of this model. Its constants and its `opponent`, `where1d`, `generate_legal_moves_gomoku` and `generate_random_move_gomoku` are given the behaviour stated in `BoardUtil` and `Playout`; its NULLPOINT is the constant of `LibertyHints`.
- `Playout.GenerateRandomMoveGomoku` leaves the choice of the EMPTY point open; the source's is random.
- Integers are unbounded. The numpy `int32` cells only hold 0..3, and board indices stay below 25 * 25 + 78, so no wrap-around is possible.

## Findings

| source | as written | input that shows it | evidently intended | confidence | as-written member | corrected member |
|---|---|---|---|---|---|---|
| gomoku4/mcts_player.py:371-385 | `states[i]` indexes the `states` dictionary, which holds only occupied cells, so a run through an empty cell raises `KeyError` | a 9 x 9 board with stones at 0 and 2..7: the scan at 0 reads the empty cell 1 and raises, although 2..6 is a five | read an empty cell as "no player" (`states.get(i, -1)`) and report the first stone starting a five | not executed | `Mcts.ScanAsWritten`, `Mcts.ScanAsWrittenRaises` | `Mcts.MCTS.HasAWinner` |
| gomoku4/mcts_player.py:351-354 | `adjacents.remove(move)` inside `for move in adjacents` skips the element after each removed one | two adjacent cells a, b that both have statistics: b is kept | return the adjacent cells without statistics, as the docstring says | not executed | `Mcts.RemoveWhileIterating`, `Mcts.RemoveWhileIteratingKeeps`, `Mcts.SkipFilterDiffers` | `Mcts.MCTS.AdjacentMoves` |
| gomoku4/simple_board.py:208-245 | `is_legal` puts the stone down, and `_has_liberty` records a liberty of the block for every stone of it. The stone is then taken back without clearing these hints. `_fast_liberty_check` trusts a recorded liberty that is still EMPTY, even when it no longer touches the block | size 5, WHITE on 7 and 9, BLACK on 13 and 14, the rest EMPTY: `is_legal(8, WHITE)` records 10 for 7, 8 and 9; `play_move(8, BLACK)` then keeps the WHITE stone on 7, which has no liberty | capture every neighbouring block without a liberty, as the full search decides | not executed | `LibertyHints.ProcessCaptureAsWritten`, `LibertyHints.StaleHintKeepsDeadStone` | `SimpleBoard.SimpleGoBoard.DetectAndProcessCapture`, `LibertyHints.SoundHintAgrees` |
| gomoku4/play_for_node_eva.py:36-41 | `get_pattern_moves` always returns a pair, so the `ret is None` fallback never runs, and a position without a pattern yields `('Random', None)`; `do_playout` then calls `random.choice(None)`. This assumes the pattern walker of simple_board.py line 470. As written, the `check_pattern(self, pattern)` of line 566 replaces that walker, so the call at line 517 raises `TypeError` first | an empty board of any size, with the line-470 walker in place | fall back to every legal (EMPTY) move | not executed | `Playout.PolicyMovesAsWritten`, `Playout.PolicyOnEmptyBoard` | `Playout.PolicyMoves` |
