// The playout helpers of play_for_node_eva: playing and taking back Gomoku
// moves, classifying a position, choosing playout moves from the tactical
// patterns, a bounded random playout and a pattern-guided playout that
// restores the board it was given.
module Playout {
  import opened BoardUtil
  import opened FiveInRow
  import opened Patterns
  import opened SimpleBoard

  /** What game_result reports: a winner colour, 'draw', or None while the
      game goes on. */
  datatype Outcome = Winner(color: int) | Draw | Ongoing

  /** No cell is EMPTY. */
  ghost predicate Full(cells: seq<int>) {
    forall q :: 0 <= q < |cells| ==> cells[q] != EMPTY
  }

  /** The winner check_game_end_gomoku reports: WHITE is looked at first. */
  ghost function FiveWinner(cells: seq<int>, ns: int): Option<int> {
    if HasFive(cells, ns, WHITE) then Some(WHITE)
    else if HasFive(cells, ns, BLACK) then Some(BLACK)
    else None
  }

  /** game_result as a function of the cells: a five wins even on a full
      board; a full board without a five is a draw; otherwise the game goes
      on. */
  ghost function ResultOf(cells: seq<int>, ns: int): Outcome {
    match FiveWinner(cells, ns)
    case Some(c) => Winner(c)
    case None => if Full(cells) then Draw else Ongoing
  }

  /** The EMPTY cells. */
  ghost function Empties(cells: seq<int>): set<int> {
    set q | 0 <= q < |cells| && cells[q] == EMPTY
  }

  /** Putting a stone on an EMPTY cell leaves one EMPTY cell fewer. */
  lemma FillOne(cells: seq<int>, m: int, c: int)
    requires 0 <= m < |cells| && cells[m] == EMPTY && c != EMPTY
    ensures |Empties(cells[m := c])| == |Empties(cells)| - 1
  {
    assert Empties(cells[m := c]) == Empties(cells) - {m};
  }

  lemma FullIffNoEmpties(cells: seq<int>)
    ensures Full(cells) <==> |Empties(cells)| == 0
  {
    if !Full(cells) {
      var q :| 0 <= q < |cells| && cells[q] == EMPTY;
      assert q in Empties(cells);
    }
  }

  /** get_empty_points is empty exactly on a full board. */
  lemma NoEmptyPointsIffFull(board: SimpleGoBoard)
    ensures |board.GetEmptyPoints()| == 0 <==> Full(board.Cells())
  {
    var moves := board.GetEmptyPoints();
    if !Full(board.Cells()) {
      var q :| 0 <= q < |board.Cells()| && board.Cells()[q] == EMPTY;
      assert board.board[q] == EMPTY;
      assert q in moves;
    }
    if |moves| != 0 {
      assert board.Cells()[moves[0]] == EMPTY;
    }
  }

  /** The player to move after n alternating turns starting with p. */
  function AfterTurns(p: int, n: nat): (r: int)
    requires IsBlackWhite(p)
    ensures IsBlackWhite(r)
  {
    if n == 0 then p else Opponent(AfterTurns(p, n - 1))
  }

  /** undo: empty the cell of move and give the turn back. */
  method Undo(board: SimpleGoBoard, move: int)
    requires board.Valid() && 0 <= move < board.maxpoint && board.board[move] != BORDER
    modifies board.board, board`currentPlayer
    ensures board.Valid()
    ensures board.Cells() == old(board.Cells())[move := EMPTY]
    ensures board.currentPlayer == Opponent(old(board.currentPlayer))
  {
    board.board[move] := EMPTY;
    board.currentPlayer := Opponent(board.currentPlayer);
  }

  /** play_move: play_move_gomoku, its answer dropped. */
  method PlayMove(board: SimpleGoBoard, move: int, color: int)
    requires board.Valid() && IsBlackWhite(color) && 0 <= move < board.maxpoint
    modifies board.board, board`currentPlayer
    ensures board.Valid()
    ensures old(board.board[move]) == EMPTY ==>
      board.Cells() == old(board.Cells())[move := color] && board.currentPlayer == Opponent(color)
    ensures old(board.board[move]) != EMPTY ==>
      board.Cells() == old(board.Cells()) && board.currentPlayer == old(board.currentPlayer)
  {
    var _ := board.PlayMoveGomoku(move, color);
  }

  /** play_move of the player to move on an EMPTY cell followed by undo of
      the same cell gives back the cells and the player to move. */
  method PlayThenUndo(board: SimpleGoBoard, move: int)
    requires board.Valid() && 0 <= move < board.maxpoint && board.board[move] == EMPTY
    modifies board.board, board`currentPlayer
    ensures board.Valid()
    ensures board.Cells() == old(board.Cells()) && board.currentPlayer == old(board.currentPlayer)
  {
    PlayMove(board, move, board.currentPlayer);
    Undo(board, move);
    assert board.Cells() == old(board.Cells());
  }

  /** game_result: the winner when a five exists, 'draw' on a full board
      without one, None otherwise. */
  method GameResult(board: SimpleGoBoard) returns (res: Outcome)
    requires board.Valid()
    ensures res == ResultOf(board.Cells(), board.NS)
    ensures res.Winner? ==> HasFive(board.Cells(), board.NS, res.color)
    ensures res == Draw <==> !HasFive(board.Cells(), board.NS, WHITE) && !HasFive(board.Cells(), board.NS, BLACK)
                             && Full(board.Cells())
  {
    var gameEnd, winner := board.CheckGameEndGomoku();
    var moves := board.GetEmptyPoints();
    var boardFull := |moves| == 0;
    NoEmptyPointsIffFull(board);
    if gameEnd {
      return Winner(winner.value);
    }
    if boardFull {
      return Draw;
    }
    return Ongoing;
  }

  /** The category names of policy_moves, indexed by get_pattern_moves'
      category (4: no pattern). */
  const PatternList: seq<string> := ["Win", "BlockWin", "OpenFour", "BlockOpenFour", "Random"]

  /** generate_legal_moves_gomoku: the EMPTY points. */
  function GenerateLegalMovesGomoku(board: SimpleGoBoard): (r: set<int>)
    reads board, board.board
    ensures forall p :: p in r <==> 0 <= p < board.board.Length && board.board[p] == EMPTY
  {
    var empties := board.GetEmptyPoints();
    set k | 0 <= k < |empties| :: empties[k]
  }

  /** policy_moves as written: get_pattern_moves always answers a pair, so
      its 'ret is None' fallback is never taken and a position without a
      pattern yields ('Random', None). */
  method PolicyMovesAsWritten(board: SimpleGoBoard, colorToPlay: int) returns (name: string, moves: Option<set<int>>)
    requires board.Valid()
    ensures name == PatternList[FirstNonEmpty(board.PatternSets())]
    ensures FirstNonEmpty(board.PatternSets()) == 4 ==> name == "Random" && moves == None
    ensures FirstNonEmpty(board.PatternSets()) < 4 ==> moves == Some(board.PatternSets()[FirstNonEmpty(board.PatternSets())])
  {
    var movetypeId, patternMoves := board.GetPatternMoves();
    return PatternList[movetypeId], patternMoves;
  }

  /** On a board without stones, policy_moves as written offers no move at
      all while every on-board point is EMPTY: do_playout's random choice
      would be made from None. */
  method PolicyOnEmptyBoard(size: int) returns (name: string, moves: Option<set<int>>, empties: seq<int>)
    requires 2 <= size <= MAXSIZE
    ensures name == "Random" && moves == None && |empties| == size * size
  {
    var board := new SimpleGoBoard(size);
    MoveTablesWellFormed();
    forall i | 0 <= i < 4 ensures board.PatternPoints(i) == {} {
      NoStonesNoMatch(board.Cells(), board.NS, board.AllPoints(), board.currentPlayer, MoveTables(), i, board.maxpoint);
    }
    FirstNonEmptyIs(board.PatternSets(), 4);
    name, moves := PolicyMovesAsWritten(board, BLACK);
    empties := board.GetEmptyPoints();
    EmptyPointsCount(board);
  }

  /** A fresh board of the given size has size * size EMPTY points. */
  lemma EmptyPointsCount(board: SimpleGoBoard)
    requires board.Valid() && board.size >= 1
    requires forall p :: 0 <= p < board.maxpoint ==> board.board[p] == (if Layout.OnBoard(board.size, p) then EMPTY else BORDER)
    ensures |board.GetEmptyPoints()| == board.size * board.size
  {
    var empties := board.GetEmptyPoints();
    var size := board.size;
    var grid := set r, c | 1 <= r <= size && 1 <= c <= size :: Layout.CoordToPoint(size, r, c);
    assert |empties| == |grid| by {
      forall p | p in grid ensures p in empties {
        var r, c :| 1 <= r <= size && 1 <= c <= size && p == Layout.CoordToPoint(size, r, c);
        Layout.CoordToPointOnBoard(size, r, c);
        Layout.OnBoardBounds(size, p);
      }
      forall k | 0 <= k < |empties| ensures empties[k] in grid {
        Layout.OnBoardIsCoord(size, empties[k]);
      }
      DistinctCard(empties, grid);
    }
    GridCard(size);
  }

  /** The board has size * size points: size rows of size columns. */
  lemma GridCard(size: int)
    requires size >= 1
    ensures |set r, c | 1 <= r <= size && 1 <= c <= size :: Layout.CoordToPoint(size, r, c)| == size * size
  {
    GridRowsCard(size, size);
  }

  lemma {:induction false} GridRowsCard(size: int, rows: int)
    requires size >= 1 && 0 <= rows <= size
    ensures |set r, c | 1 <= r <= rows && 1 <= c <= size :: Layout.CoordToPoint(size, r, c)| == rows * size
    decreases rows
  {
    var g := set r, c | 1 <= r <= rows && 1 <= c <= size :: Layout.CoordToPoint(size, r, c);
    if rows == 0 {
      assert g == {};
    } else {
      var prev := set r, c | 1 <= r <= rows - 1 && 1 <= c <= size :: Layout.CoordToPoint(size, r, c);
      var row := set c | 1 <= c <= size :: Layout.CoordToPoint(size, rows, c);
      assert g == prev + row;
      GridRowsCard(size, rows - 1);
      forall p | p in prev ensures p !in row {
        var r, c :| 1 <= r <= rows - 1 && 1 <= c <= size && p == Layout.CoordToPoint(size, r, c);
        Layout.CoordToPointOnBoard(size, r, c);
        if p in row {
          var c' :| 1 <= c' <= size && p == Layout.CoordToPoint(size, rows, c');
          Layout.CoordToPointOnBoard(size, rows, c');
        }
      }
      RowCard(size, rows, size);
    }
  }

  lemma {:induction false} RowCard(size: int, row: int, cols: int)
    requires 0 <= cols
    ensures |set c | 1 <= c <= cols :: Layout.CoordToPoint(size, row, c)| == cols
    decreases cols
  {
    var s := set c | 1 <= c <= cols :: Layout.CoordToPoint(size, row, c);
    if cols == 0 {
      assert s == {};
    } else {
      var prev := set c | 1 <= c <= cols - 1 :: Layout.CoordToPoint(size, row, c);
      assert s == prev + {Layout.CoordToPoint(size, row, cols)};
      RowCard(size, row, cols - 1);
    }
  }

  /** The four point sets get_pattern_moves records for the player to move,
      as a function of the cells: category i gathers the windows, from every
      index of the cell array, whose pattern of category i matches. */
  ghost function PatternSetsOf(cells: seq<int>, ns: int, color: int): (r: seq<set<int>>)
    ensures |r| == 4
  {
    var starts := seq(|cells|, k => k);
    [Scanned(cells, ns, starts, color, MoveTables(), 0, |cells|),
     Scanned(cells, ns, starts, color, MoveTables(), 1, |cells|),
     Scanned(cells, ns, starts, color, MoveTables(), 2, |cells|),
     Scanned(cells, ns, starts, color, MoveTables(), 3, |cells|)]
  }

  /** The moves policy_moves offers to color: the points of the first
      category that has any, or else every EMPTY cell. */
  ghost function PolicyChoices(cells: seq<int>, ns: int, color: int): set<int> {
    var sets := PatternSetsOf(cells, ns, color);
    if FirstNonEmpty(sets) < 4 then sets[FirstNonEmpty(sets)] else Empties(cells)
  }

  /** The board's pattern sets are those of its cells and its player. */
  lemma PatternSetsOfBoard(board: SimpleGoBoard)
    requires board.Valid()
    ensures board.PatternSets() == PatternSetsOf(board.Cells(), board.NS, board.currentPlayer)
  {
    assert board.AllPoints() == seq(|board.Cells()|, k => k);
  }

  /** policy_moves as evidently intended: the points of the first tactical
      category, or every EMPTY point ('Random') when no pattern matches.
      Every offered point is EMPTY, and some point is offered whenever one
      is EMPTY. */
  method PolicyMoves(board: SimpleGoBoard, colorToPlay: int) returns (name: string, moves: set<int>)
    requires board.Valid()
    ensures name == PatternList[FirstNonEmpty(board.PatternSets())]
    ensures FirstNonEmpty(board.PatternSets()) < 4 ==> moves == board.PatternSets()[FirstNonEmpty(board.PatternSets())]
    ensures FirstNonEmpty(board.PatternSets()) == 4 ==> moves == GenerateLegalMovesGomoku(board)
    ensures forall p :: p in moves ==> 0 <= p < board.maxpoint && board.board[p] == EMPTY
    ensures !Full(board.Cells()) ==> moves != {}
    ensures moves == PolicyChoices(board.Cells(), board.NS, board.currentPlayer)
  {
    PatternSetsOfBoard(board);
    var movetypeId, patternMoves := board.GetPatternMoves();
    if patternMoves == None {
      name, moves := "Random", GenerateLegalMovesGomoku(board);
      assert moves == Empties(board.Cells());
      if !Full(board.Cells()) {
        var q :| 0 <= q < board.board.Length && board.board[q] == EMPTY;
        assert q in moves;
      }
    } else {
      name, moves := PatternList[movetypeId], patternMoves.value;
    }
  }

  /** The cells moves were played on were EMPTY at the start and hold
      stones now; every other cell is as it was. */
  ghost predicate Played(c0: seq<int>, cells: seq<int>, moves: seq<int>) {
    && |cells| == |c0|
    && (forall q :: 0 <= q < |c0| && q !in moves ==> cells[q] == c0[q])
    && (forall k :: 0 <= k < |moves| ==> 0 <= moves[k] < |c0| && c0[moves[k]] == EMPTY && IsBlackWhite(cells[moves[k]]))
  }

  /** A stone put on a cell that is EMPTY extends the moves played. */
  lemma PlayedStep(c0: seq<int>, cells: seq<int>, moves: seq<int>, m: int, c: int)
    requires Played(c0, cells, moves) && 0 <= m < |cells| && cells[m] == EMPTY && IsBlackWhite(c)
    ensures Played(c0, cells[m := c], moves + [m])
  {
    var after := cells[m := c];
    var moves' := moves + [m];
    forall k | 0 <= k < |moves'|
      ensures 0 <= moves'[k] < |c0| && c0[moves'[k]] == EMPTY && IsBlackWhite(after[moves'[k]])
    {
      if k < |moves| {
        assert moves'[k] == moves[k];
      }
    }
  }

  /** The cells after the moves are played in turn on c0, p first. */
  ghost function Replay(c0: seq<int>, p: int, moves: seq<int>): (r: seq<int>)
    requires IsBlackWhite(p)
    ensures |r| == |c0|
    decreases |moves|
  {
    if |moves| == 0 then c0
    else
      var n := |moves| - 1;
      var prev := Replay(c0, p, moves[..n]);
      if 0 <= moves[n] < |prev| then prev[moves[n] := AfterTurns(p, n)] else prev
  }

  /** In a position without a result, policy_moves offers m to color. */
  ghost predicate Offered(cells: seq<int>, ns: int, color: int, m: int) {
    ResultOf(cells, ns) == Ongoing && m in PolicyChoices(cells, ns, color)
  }

  /** Every move of the run was one policy_moves offered to the player whose
      turn it was, in a position that had no result yet. */
  ghost predicate PolicyRun(c0: seq<int>, p: int, ns: int, moves: seq<int>)
    requires IsBlackWhite(p)
  {
    forall k :: 0 <= k < |moves| ==> Offered(Replay(c0, p, moves[..k]), ns, AfterTurns(p, k), moves[k])
  }

  /** One more move puts its player's stone on its cell. */
  lemma ReplayStep(c0: seq<int>, p: int, moves: seq<int>, m: int)
    requires IsBlackWhite(p) && 0 <= m < |c0|
    ensures Replay(c0, p, moves + [m]) == Replay(c0, p, moves)[m := AfterTurns(p, |moves|)]
  {
    var moves' := moves + [m];
    assert |moves'| - 1 == |moves| && moves'[|moves|] == m;
    assert moves'[..|moves|] == moves;
  }

  /** A policy move in a position without a result extends the run. */
  lemma PolicyRunStep(c0: seq<int>, p: int, ns: int, moves: seq<int>, m: int)
    requires IsBlackWhite(p) && PolicyRun(c0, p, ns, moves)
    requires Offered(Replay(c0, p, moves), ns, AfterTurns(p, |moves|), m)
    ensures PolicyRun(c0, p, ns, moves + [m])
  {
    var moves' := moves + [m];
    assert moves'[..|moves|] == moves;
    forall k | 0 <= k < |moves'|
      ensures Offered(Replay(c0, p, moves'[..k]), ns, AfterTurns(p, k), moves'[k])
    {
      if k < |moves| {
        assert moves'[..k] == moves[..k];
      }
    }
  }

  /** The score do_playout reports for the outcome, seen from colorToPlay. */
  function Score(res: Outcome, colorToPlay: int): real {
    if res == Winner(colorToPlay) then 1.0 else if res == Draw then 0.0 else -1.0
  }

  /** The playing half of do_playout: pattern-guided moves of the player to
      move until the game has a result. The moves played are listed in
      order; each went on a cell that was EMPTY, and no other cell changed. */
  method Simulate(board: SimpleGoBoard) returns (res: Outcome, simulationMoves: seq<int>)
    requires board.Valid()
    modifies board.board, board`currentPlayer
    ensures board.Valid() && res == ResultOf(board.Cells(), board.NS) && res != Ongoing
    ensures Played(old(board.Cells()), board.Cells(), simulationMoves)
    ensures board.currentPlayer == AfterTurns(old(board.currentPlayer), |simulationMoves|)
    ensures ResultOf(old(board.Cells()), board.NS) != Ongoing ==> simulationMoves == [] && board.Cells() == old(board.Cells())
    ensures board.Cells() == Replay(old(board.Cells()), old(board.currentPlayer), simulationMoves)
    ensures PolicyRun(old(board.Cells()), old(board.currentPlayer), board.NS, simulationMoves)
  {
    ghost var c0 := board.Cells();
    ghost var p0 := board.currentPlayer;
    res := GameResult(board);
    simulationMoves := [];
    assert Played(c0, board.Cells(), simulationMoves);
    while res == Ongoing
      invariant board.Valid() && res == ResultOf(board.Cells(), board.NS)
      invariant Played(c0, board.Cells(), simulationMoves)
      invariant board.currentPlayer == AfterTurns(p0, |simulationMoves|)
      invariant ResultOf(c0, board.NS) != Ongoing ==> simulationMoves == [] && board.Cells() == c0
      invariant board.Cells() == Replay(c0, p0, simulationMoves)
      invariant PolicyRun(c0, p0, board.NS, simulationMoves)
      decreases |Empties(board.Cells())|
    {
      var playoutMove := PlayRunMove(board, c0, p0, simulationMoves);
      simulationMoves := simulationMoves + [playoutMove];
      res := GameResult(board);
    }
  }

  /** One turn of Simulate's loop: the policy move extends the run played
      from c0 with p0 first. */
  method PlayRunMove(board: SimpleGoBoard, ghost c0: seq<int>, ghost p0: int, ghost moves: seq<int>) returns (playoutMove: int)
    requires board.Valid() && IsBlackWhite(p0) && ResultOf(board.Cells(), board.NS) == Ongoing
    requires Played(c0, board.Cells(), moves) && board.currentPlayer == AfterTurns(p0, |moves|)
    requires board.Cells() == Replay(c0, p0, moves) && PolicyRun(c0, p0, board.NS, moves)
    modifies board.board, board`currentPlayer
    ensures board.Valid() && |Empties(board.Cells())| < |Empties(old(board.Cells()))|
    ensures Played(c0, board.Cells(), moves + [playoutMove]) && board.currentPlayer == AfterTurns(p0, |moves + [playoutMove]|)
    ensures board.Cells() == Replay(c0, p0, moves + [playoutMove]) && PolicyRun(c0, p0, board.NS, moves + [playoutMove])
  {
    ghost var before := board.Cells();
    ghost var color := board.currentPlayer;
    playoutMove := PlayPolicyMove(board);
    PlayedStep(c0, before, moves, playoutMove, color);
    PolicyRunStep(c0, p0, board.NS, moves, playoutMove);
    ReplayStep(c0, p0, moves, playoutMove);
  }

  /** random.choice over the moves policy_moves offers the player to move;
      which one is left open. */
  method ChoosePolicyMove(board: SimpleGoBoard) returns (playoutMove: int)
    requires board.Valid() && !Full(board.Cells())
    ensures playoutMove in PolicyChoices(board.Cells(), board.NS, board.currentPlayer)
    ensures 0 <= playoutMove < board.maxpoint && board.board[playoutMove] == EMPTY
  {
    var _, candidateMoves := PolicyMoves(board, board.currentPlayer);
    playoutMove :| playoutMove in candidateMoves;
  }

  /** One step of do_playout's loop: the player to move plays one of the
      moves policy_moves offers. Some EMPTY cell is needed. */
  method PlayPolicyMove(board: SimpleGoBoard) returns (playoutMove: int)
    requires board.Valid() && !Full(board.Cells())
    modifies board.board, board`currentPlayer
    ensures board.Valid() && 0 <= playoutMove < board.maxpoint && old(board.board[playoutMove]) == EMPTY
    ensures board.Cells() == old(board.Cells())[playoutMove := old(board.currentPlayer)]
    ensures board.currentPlayer == Opponent(old(board.currentPlayer))
    ensures |Empties(board.Cells())| == |Empties(old(board.Cells()))| - 1
    ensures playoutMove in PolicyChoices(old(board.Cells()), board.NS, old(board.currentPlayer))
  {
    playoutMove := ChoosePolicyMove(board);
    ghost var before := board.Cells();
    PlayMove(board, playoutMove, board.currentPlayer);
    FillOne(before, playoutMove, board.board[playoutMove]);
  }

  /** The undoing half of do_playout: taking the moves back last first
      restores the cells and the player to move. */
  method UndoMoves(board: SimpleGoBoard, simulationMoves: seq<int>, ghost c0: seq<int>, ghost p0: int)
    requires board.Valid() && IsBlackWhite(p0)
    requires Played(c0, board.Cells(), simulationMoves)
    requires board.currentPlayer == AfterTurns(p0, |simulationMoves|)
    modifies board.board, board`currentPlayer
    ensures board.Valid() && board.Cells() == c0 && board.currentPlayer == p0
  {
    var j := |simulationMoves|;
    while j > 0
      invariant 0 <= j <= |simulationMoves| && board.Valid()
      invariant |board.Cells()| == |c0|
      invariant forall q :: 0 <= q < |c0| && q !in simulationMoves[..j] ==> board.board[q] == c0[q]
      invariant board.currentPlayer == AfterTurns(p0, j)
      invariant forall k :: 0 <= k < |simulationMoves| ==> 0 <= simulationMoves[k] < |c0| && board.board[simulationMoves[k]] != BORDER
    {
      var m := simulationMoves[j - 1];
      assert simulationMoves[..j] == simulationMoves[..j - 1] + [m];
      assert c0[m] == EMPTY;
      Undo(board, m);
      j := j - 1;
    }
    assert board.Cells() == c0;
  }

  /** do_playout: play pattern-guided moves until the game ends, undo them
      all in reverse order, and score the outcome for colorToPlay: 1.0 for
      a win, 0.0 for a draw, -1.0 for a win of the opponent. The board and
      the player to move are as they were; a position that has already
      ended is scored as it stands. */
  method DoPlayout(board: SimpleGoBoard, colorToPlay: int) returns (score: real, ghost final: Outcome, ghost moves: seq<int>)
    requires board.Valid() && IsBlackWhite(colorToPlay)
    modifies board.board, board`currentPlayer
    ensures board.Valid()
    ensures board.Cells() == old(board.Cells()) && board.currentPlayer == old(board.currentPlayer)
    ensures PolicyRun(old(board.Cells()), old(board.currentPlayer), board.NS, moves)
    ensures Played(old(board.Cells()), Replay(old(board.Cells()), old(board.currentPlayer), moves), moves)
    ensures final == ResultOf(Replay(old(board.Cells()), old(board.currentPlayer), moves), board.NS)
    ensures final != Ongoing && (final.Winner? ==> IsBlackWhite(final.color))
    ensures ResultOf(old(board.Cells()), board.NS) != Ongoing ==> final == ResultOf(old(board.Cells()), board.NS)
    ensures score == Score(final, colorToPlay)
  {
    ghost var c0 := board.Cells();
    ghost var p0 := board.currentPlayer;
    var res, simulationMoves := Simulate(board);
    final, moves := res, simulationMoves;
    UndoMoves(board, simulationMoves, c0, p0);
    if res == Winner(colorToPlay) {
      return 1.0, final, moves;
    } else if res == Draw {
      return 0.0, final, moves;
    } else {
      assert res == Winner(Opponent(colorToPlay));
      return -1.0, final, moves;
    }
  }

  /** generate_random_move_gomoku: some EMPTY point, or PASS (None) when
      there is none. The random choice is left open. */
  method GenerateRandomMoveGomoku(board: SimpleGoBoard) returns (move: Option<int>)
    requires board.Valid()
    ensures move.None? <==> Full(board.Cells())
    ensures move.Some? ==> 0 <= move.value < board.maxpoint && board.board[move.value] == EMPTY
  {
    var moves := board.GetEmptyPoints();
    if |moves| == 0 {
      return None;
    }
    var k :| 0 <= k < |moves|;
    return Some(moves[k]);
  }

  /** The move ceiling of playGame. */
  const Limit: nat := 1000

  /** playGame: fill EMPTY points with random moves of the player to move,
      at most Limit of them, stopping early when none is left; the caller's
      board itself is played on. Only afterwards is the board checked for a
      five, WHITE first. */
  method PlayGame(board: SimpleGoBoard, toPlay: int) returns (winner: Option<int>, ghost moves: seq<int>)
    requires board.Valid()
    modifies board.board, board`currentPlayer
    ensures board.Valid()
    ensures |moves| == if |Empties(old(board.Cells()))| <= Limit then |Empties(old(board.Cells()))| else Limit
    ensures |Empties(board.Cells())| ==
              if |Empties(old(board.Cells()))| <= Limit then 0 else |Empties(old(board.Cells()))| - Limit
    ensures forall q :: 0 <= q < board.maxpoint && old(board.board[q]) != EMPTY ==> board.board[q] == old(board.board[q])
    ensures Played(old(board.Cells()), board.Cells(), moves)
    ensures board.Cells() == Replay(old(board.Cells()), old(board.currentPlayer), moves)
    ensures board.currentPlayer == AfterTurns(old(board.currentPlayer), |moves|)
    ensures winner == FiveWinner(board.Cells(), board.NS)
  {
    ghost var c0 := board.Cells();
    ghost var p0 := board.currentPlayer;
    ghost var e0 := |Empties(c0)|;
    moves := [];
    var limit := Limit;
    for i := 0 to limit
      invariant board.Valid()
      invariant |moves| == (if e0 <= i then e0 else i)
      invariant |Empties(board.Cells())| == e0 - |moves|
      invariant Played(c0, board.Cells(), moves)
      invariant board.Cells() == Replay(c0, p0, moves)
      invariant board.currentPlayer == AfterTurns(p0, |moves|)
    {
      var playoutMove := GenerateRandomMoveGomoku(board);
      if playoutMove.Some? {
        PlayRandomMove(board, playoutMove.value, c0, p0, moves);
        moves := moves + [playoutMove.value];
      } else {
        FullIffNoEmpties(board.Cells());
        break;
      }
    }
    var _, w := board.CheckGameEndGomoku();
    winner := w;
  }

  /** One step of playGame's loop: the player to move puts a stone on the
      EMPTY point m, which extends the game's moves by m. */
  method PlayRandomMove(board: SimpleGoBoard, m: int, ghost c0: seq<int>, ghost p0: int, ghost moves: seq<int>)
    requires board.Valid() && IsBlackWhite(p0) && 0 <= m < board.maxpoint && board.board[m] == EMPTY
    requires Played(c0, board.Cells(), moves) && board.currentPlayer == AfterTurns(p0, |moves|)
    requires board.Cells() == Replay(c0, p0, moves)
    modifies board.board, board`currentPlayer
    ensures board.Valid() && |Empties(board.Cells())| == |Empties(old(board.Cells()))| - 1
    ensures Played(c0, board.Cells(), moves + [m]) && board.currentPlayer == AfterTurns(p0, |moves + [m]|)
    ensures board.Cells() == Replay(c0, p0, moves + [m])
  {
    ghost var before := board.Cells();
    var color := board.currentPlayer;
    var ifLegal := board.PlayMoveGomoku(m, color);
    assert ifLegal;
    FillOne(before, m, color);
    PlayedStep(c0, before, moves, m, color);
    ReplayStep(c0, p0, moves, m);
  }
}
