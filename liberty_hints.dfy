// The liberty_of hint array of SimpleGoBoard: one recorded liberty per
// stone, which _fast_liberty_check consults before the full liberty search.
// SimpleGoBoard's capture code in this model decides on the cells alone;
// this module states the hint-based decision of the source beside it and
// shows a position where a hint left behind by is_legal makes play_move keep
// a block that has no liberty.
module LibertyHints {
  import opened BoardUtil
  import opened Layout
  import opened Blocks

  /** The "no liberty recorded" mark of liberty_of (board_util's NULLPOINT). */
  const NULLPOINT: int := 0

  /** _fast_liberty_check: the liberty recorded for nb is still EMPTY, or
      nb itself has an EMPTY neighbour. */
  ghost predicate FastLibertyCheck(cells: seq<int>, size: int, hints: seq<int>, nb: int)
    requires 0 <= nb < |hints|
  {
    || (hints[nb] != NULLPOINT && 0 <= hints[nb] < |cells| && cells[hints[nb]] == EMPTY)
    || HasEmptyNeighbor(cells, size, nb)
  }

  /** _has_liberty's write once get_liberty has found lib for the block of
      stone: every stone of that block records lib. */
  ghost function RecordLiberty(cells: seq<int>, size: int, hints: seq<int>, stone: int, lib: int): (r: seq<int>)
    ensures |r| == |hints|
  {
    seq(|hints|, q requires 0 <= q < |hints| => if Connected(cells, size, stone, q) then lib else hints[q])
  }

  /** The cells after _detect_and_process_capture(nb) as written: nothing
      is removed when the fast check passes or the block has a liberty;
      otherwise the block of nb is emptied. A block with a liberty is never
      removed. */
  ghost function ProcessCaptureAsWritten(cells: seq<int>, size: int, hints: seq<int>, nb: int): (r: seq<int>)
    requires 0 <= nb < |hints|
    ensures |r| == |cells|
    ensures BlockHasLiberty(cells, size, nb) ==> r == cells
    ensures r != cells ==> r == RemoveBlocks(cells, size, {nb})
  {
    if FastLibertyCheck(cells, size, hints, nb) || BlockHasLiberty(cells, size, nb) then cells
    else RemoveBlocks(cells, size, {nb})
  }

  /** A hint is sound for nb when, while it is EMPTY, it is a liberty of
      nb's block. */
  ghost predicate HintSound(cells: seq<int>, size: int, hints: seq<int>, nb: int)
    requires 0 <= nb < |hints|
  {
    hints[nb] != NULLPOINT && 0 <= hints[nb] < |cells| && cells[hints[nb]] == EMPTY
    ==> exists q :: Connected(cells, size, nb, q) && Adjacent(size, q, hints[nb])
  }

  /** With a sound hint the quick exit only answers what the full search
      answers, so a block without a liberty is removed just as the
      hint-free capture of SimpleGoBoard removes it (a block with one is
      kept by both). */
  lemma SoundHintAgrees(cells: seq<int>, size: int, hints: seq<int>, nb: int)
    requires 0 <= nb < |hints| && 0 <= nb < |cells| && HintSound(cells, size, hints, nb)
    ensures FastLibertyCheck(cells, size, hints, nb) ==> BlockHasLiberty(cells, size, nb)
    ensures !BlockHasLiberty(cells, size, nb) ==> ProcessCaptureAsWritten(cells, size, hints, nb) == RemoveBlocks(cells, size, {nb})
  {
    if FastLibertyCheck(cells, size, hints, nb) {
      if HasEmptyNeighbor(cells, size, nb) {
        ConnectedRefl(cells, size, nb);
      } else {
        var lib := hints[nb];
        var q :| Connected(cells, size, nb, q) && Adjacent(size, q, lib);
        assert HasEmptyNeighbor(cells, size, q);
      }
      assert BlockHasLiberty(cells, size, nb);
    }
  }

  /** A 5x5 position: WHITE on points 7 and 9, BLACK on 13 and 14, every
      other point of the board EMPTY. */
  function StaleHintPosition(): (r: seq<int>)
    ensures |r| == MaxPoint(5)
  {
    seq(MaxPoint(5), q =>
      if q == 7 || q == 9 then WHITE
      else if q == 13 || q == 14 then BLACK
      else if OnBoard(5, q) then EMPTY
      else BORDER)
  }

  /** The cells of StaleHintPosition around point 8. */
  lemma StaleHintCells()
    ensures var c0 := StaleHintPosition();
            && c0[0] == BORDER && c0[1] == BORDER && c0[2] == BORDER && c0[6] == BORDER
            && c0[7] == WHITE && c0[9] == WHITE && c0[13] == BLACK && c0[14] == BLACK
            && c0[8] == EMPTY && c0[10] == EMPTY && c0[15] == EMPTY
  {
  }

  /** With WHITE on 8, the only BLACK neighbour, 14, keeps its liberty 15:
      the move captures nothing. */
  lemma WhiteOnEightCapturesNothing()
    ensures DeadNeighbors(StaleHintPosition()[8 := WHITE], 5, NbrList(5, 8), BLACK) == {}
  {
    var cW := StaleHintPosition()[8 := WHITE];
    StaleHintCells();
    forall x | x in NbrList(5, 8) && 0 <= x < |cW| && cW[x] == BLACK
      ensures BlockHasLiberty(cW, 5, x)
    {
      NbrListMembership(5, 8, x);
      assert x == 14;
      ConnectedRefl(cW, 5, 14);
      assert Adjacent(5, 14, 15);
    }
    NoMembers(DeadNeighbors(cW, 5, NbrList(5, 8), BLACK));
  }

  /** With WHITE on 8, the move captures nothing, the stone has no EMPTY
      neighbour, and its block, which holds 7, has a liberty. */
  lemma WhiteOnEight()
    ensures var cW := StaleHintPosition()[8 := WHITE];
            && DeadNeighbors(cW, 5, NbrList(5, 8), BLACK) == {}
            && !HasEmptyNeighbor(cW, 5, 8)
            && Connected(cW, 5, 8, 7)
            && BlockHasLiberty(cW, 5, 8)
  {
    var cW := StaleHintPosition()[8 := WHITE];
    StaleHintCells();
    WhiteOnEightCapturesNothing();
    ConnectedRefl(cW, 5, 8);
    ConnectedStep(cW, 5, 8, 8, 7);
    ConnectedStep(cW, 5, 8, 8, 9);
    assert Adjacent(5, 9, 10);
    assert HasEmptyNeighbor(cW, 5, 9);
  }

  /** With BLACK on 8, the WHITE stone on 7 is a block of its own without
      an EMPTY neighbour: a neighbour of 8 that the rules capture. */
  lemma BlackOnEight()
    ensures var cB := StaleHintPosition()[8 := BLACK];
            && 7 in NbrList(5, 8) && cB[7] == WHITE
            && 7 in DeadNeighbors(cB, 5, NbrList(5, 8), WHITE)
  {
    var cB := StaleHintPosition()[8 := BLACK];
    StaleHintCells();
    NbrListMembership(5, 8, 7);
    var marked := seq(|cB|, q => q == 7);
    assert ClosedUnder(cB, 5, WHITE, marked);
    forall q | Connected(cB, 5, 7, q)
      ensures q == 7
    {
      ClosedContainsBlock(cB, 5, marked, 7, q);
    }
    assert !HasEmptyNeighbor(cB, 5, 7);
  }

  /** is_legal(8, WHITE) on StaleHintPosition, with no hint recorded yet:
      the WHITE stone captures nothing and has no EMPTY neighbour, so the
      liberty search of its block {7, 8, 9} runs, finds one and records it
      for every stone of the block; then 8 is emptied again. In the
      play_move(8, BLACK) that follows, the WHITE stone on 7 is a block of
      its own with no liberty, so the rules capture it, yet the recorded
      liberty is still EMPTY and the as-written check keeps the stone. This
      holds for whichever liberty get_liberty found. */
  lemma StaleHintKeepsDeadStone(lib: int)
    requires 0 <= lib < MaxPoint(5) && StaleHintPosition()[8 := WHITE][lib] == EMPTY
    requires exists s :: Connected(StaleHintPosition()[8 := WHITE], 5, 8, s) && Adjacent(5, s, lib)
    ensures var c0 := StaleHintPosition();
            var cW := c0[8 := WHITE];
            var cB := c0[8 := BLACK];
            var hints := RecordLiberty(cW, 5, seq(|c0|, q => NULLPOINT), 8, lib);
            && c0[8] == EMPTY
            && DeadNeighbors(cW, 5, NbrList(5, 8), BLACK) == {}
            && !HasEmptyNeighbor(cW, 5, 8)
            && BlockHasLiberty(cW, 5, 8)
            && 7 in DeadNeighbors(cB, 5, NbrList(5, 8), WHITE)
            && ProcessCaptureAsWritten(cB, 5, hints, 7) == cB
  {
    var c0 := StaleHintPosition();
    var cW := c0[8 := WHITE];
    var cB := c0[8 := BLACK];
    var hints := RecordLiberty(cW, 5, seq(|c0|, q => NULLPOINT), 8, lib);
    StaleHintCells();
    WhiteOnEight();
    BlackOnEight();
    assert hints[7] == lib;
    assert lib != NULLPOINT && cB[lib] == EMPTY;
    assert FastLibertyCheck(cB, 5, hints, 7);
  }
}
