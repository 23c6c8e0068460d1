// SimpleGoBoard: the board engine. The cells live in one flat array with
// BORDER sentinels around the board (see module Layout); the Go rules
// (blocks, liberties, captures, suicide, single-stone ko) and the Gomoku
// rules (unconditional placement, five in a row) work on it in place.
module SimpleBoard {
  import opened BoardUtil
  import opened Layout
  import opened Blocks
  import opened FiveInRow
  import opened Patterns

  datatype Move = Pass | At(point: int)

  /** The Go rule for a stone of color placed on the EMPTY point of c0 whose
      on-board neighbours are nbs: the neighbouring opponent blocks left
      without liberty are captured, and the move is legal when it captures
      something or its own block keeps a liberty (no suicide). */
  ghost predicate GoLegal(c0: seq<int>, size: int, nbs: seq<int>, point: int, color: int)
    requires 0 <= point < |c0| && IsBlackWhite(color)
  {
    var c1 := c0[point := color];
    DeadNeighbors(c1, size, nbs, Opponent(color)) != {} || BlockHasLiberty(c1, size, point)
  }

  /** The cells after a legal Go move: the captured blocks are removed. */
  ghost function GoAfter(c0: seq<int>, size: int, nbs: seq<int>, point: int, color: int): seq<int>
    requires 0 <= point < |c0| && IsBlackWhite(color)
  {
    var c1 := c0[point := color];
    RemoveBlocks(c1, size, DeadNeighbors(c1, size, nbs, Opponent(color)))
  }

  /** A capture leaves the placed stone a liberty; without one the cells are
      c1 itself, so the move is legal exactly when the placed stone's block
      has a liberty on the cells after the captures. */
  lemma GoLegalIff(c0: seq<int>, size: int, nbs: seq<int>, point: int, color: int, after: seq<int>)
    requires 0 <= point < |c0| && IsBlackWhite(color)
    requires DeadNeighbors(c0[point := color], size, nbs, Opponent(color)) == {} ==> after == c0[point := color]
    requires DeadNeighbors(c0[point := color], size, nbs, Opponent(color)) != {} ==> BlockHasLiberty(after, size, point)
    ensures GoLegal(c0, size, nbs, point, color) <==> BlockHasLiberty(after, size, point)
  {
  }

  /** The ko point after a legal Go move: the single captured stone when the
      move was played into a point surrounded by the opponent and captured
      exactly one single stone. */
  ghost function GoKo(c0: seq<int>, size: int, nbs: seq<int>, point: int, color: int): Option<int>
    requires 0 <= point < |c0| && IsBlackWhite(color)
  {
    var c1 := c0[point := color];
    var singles := SingleCaptures(c1, size, nbs, Opponent(color));
    if (forall x :: x in nbs ==> 0 <= x < |c0| && c0[x] == Opponent(color)) && |singles| == 1 then Some(singles[0])
    else None
  }

  lemma GoKoIs(c0: seq<int>, size: int, nbs: seq<int>, point: int, color: int, inEnemyEye: bool, singles: seq<int>)
    requires 0 <= point < |c0| && IsBlackWhite(color)
    requires forall x :: x in nbs ==> 0 <= x < |c0|
    requires inEnemyEye <==> forall x :: x in nbs ==> c0[x] == Opponent(color)
    requires singles == SingleCaptures(c0[point := color], size, nbs, Opponent(color))
    ensures GoKo(c0, size, nbs, point, color) == if inEnemyEye && |singles| == 1 then Some(singles[0]) else None
  {
  }

  /** Stepping dis + 1 points back from the window's end, direction by
      direction, lands on point n - 1 - dis of the window. */
  lemma BackStep(start: int, step: int, n: int, point: int, dirX: int, dirY: int, ns: int, dis: int)
    requires step == dirX + dirY * ns && point == Pos(start, step, n)
    ensures point - dirX * (dis + 1) - dirY * ns * (dis + 1) == Pos(start, step, n - 1 - dis)
  {
    PosBack(start, step, n, dis);
    assert step * (dis + 1) == dirX * (dis + 1) + dirY * ns * (dis + 1);
  }

  /** Moving on to the next point extends the window by that point's
      character. */
  lemma WindowNext(cells: seq<int>, start: int, step: int, color: int, n: nat, point: int, dirX: int, dirY: int, ns: int)
    requires step == dirX + dirY * ns && point == Pos(start, step, n)
    requires InRange(cells, start, step, n) && 0 <= point < |cells|
    ensures InRange(cells, start, step, n + 1)
    ensures Window(cells, start, step, color, n + 1) == Window(cells, start, step, color, n) + [Piece(cells[point], color)]
    ensures point + dirX + dirY * ns == Pos(start, step, n + 1)
  {
    PosNext(start, step, n);
  }

  /** The points check_pattern records for the key the window spells,
      counted back from the window's end, are those of Here. */
  lemma RecordedPoints(cells: seq<int>, start: int, step: int, color: int, tables: seq<Table>, i: int, n: nat,
                       point: int, dirX: int, dirY: int, ns: int)
    requires step == dirX + dirY * ns && point == Pos(start, step, n)
    requires InRange(cells, start, step, n) && 0 <= i < |tables|
    requires Category(tables, Window(cells, start, step, color, n), 0) == i
    ensures var have := Window(cells, start, step, color, n);
            (set dis | dis in tables[i][have] :: point - dirX * (dis + 1) - dirY * ns * (dis + 1))
              == Here(cells, start, step, color, tables, i, n)
  {
    var have := Window(cells, start, step, color, n);
    var a := set dis | dis in tables[i][have] :: point - dirX * (dis + 1) - dirY * ns * (dis + 1);
    var b := set dis | dis in tables[i][have] :: Pos(start, step, n - 1 - dis);
    forall p | p in a ensures p in b {
      var dis :| dis in tables[i][have] && p == point - dirX * (dis + 1) - dirY * ns * (dis + 1);
      BackStep(start, step, n, point, dirX, dirY, ns, dis);
    }
    forall p | p in b ensures p in a {
      var dis :| dis in tables[i][have] && p == Pos(start, step, n - 1 - dis);
      BackStep(start, step, n, point, dirX, dirY, ns, dis);
    }
    assert a == b;
  }

  class SimpleGoBoard {
    var size: int
    var NS: int
    var WE: int
    var maxpoint: int
    var board: array<int>
    var currentPlayer: int
    var koRecapture: Option<int>
    /** neighbors[p]: the on-board orthogonal neighbours of p, precomputed. */
    var neighbors: seq<seq<int>>

    /** The layout of the board: sizes, the BORDER frame, the cell range and
        the neighbour table. */
    ghost predicate Wellformed()
      reads this`size, this`NS, this`WE, this`maxpoint, this`board, this`neighbors, board
    {
      && 0 <= size
      && NS == Layout.NS(size) && WE == 1 && maxpoint == MaxPoint(size)
      && board.Length == maxpoint
      && (forall p {:trigger OnBoard(size, p)} :: 0 <= p < maxpoint ==> (board[p] == BORDER <==> !OnBoard(size, p)))
      && (forall p :: 0 <= p < maxpoint ==> EMPTY <= board[p] <= BORDER)
      && |neighbors| == maxpoint
      && (forall p {:trigger NbrList(size, p)} :: 0 <= p < maxpoint ==> neighbors[p] == NbrList(size, p))
      && (forall p, k :: 0 <= p < maxpoint && 0 <= k < |neighbors[p]| ==> 0 <= neighbors[p][k] < maxpoint)
    }

    ghost predicate Valid()
      reads this, board
    {
      Wellformed() && IsBlackWhite(currentPlayer)
    }

    /** The cell array as a value. */
    ghost function Cells(): (s: seq<int>)
      reads this`board, board
    {
      board[..]
    }

    constructor (size: int)
      requires 2 <= size <= MAXSIZE
      ensures Valid() && fresh(board)
      ensures this.size == size && currentPlayer == BLACK && koRecapture == None
      ensures forall p :: 0 <= p < maxpoint ==> board[p] == (if OnBoard(size, p) then EMPTY else BORDER)
    {
      new;
      Reset(size);
    }

    /** reset: an empty board of the given size, BLACK to play, no ko point. */
    method Reset(size: int)
      requires 0 <= size
      modifies this
      ensures Valid() && fresh(board)
      ensures this.size == size && currentPlayer == BLACK && koRecapture == None
      ensures forall p :: 0 <= p < maxpoint ==> board[p] == (if OnBoard(size, p) then EMPTY else BORDER)
    {
      this.size := size;
      NS := size + 1;
      WE := 1;
      koRecapture := None;
      currentPlayer := BLACK;
      maxpoint := size * size + 3 * (size + 1);
      board := new int[maxpoint](_ => BORDER);
      InitializeEmptyPoints();
      InitializeNeighbors();
    }

    function RowStart(row: int): (r: int)
      reads this
      requires 1 <= row <= size && NS == Layout.NS(size)
      ensures r == CoordToPoint(size, row, 1)
    {
      row * NS + 1
    }

    lemma RowSpan(row: int, p: int)
      requires 1 <= row <= size && NS == Layout.NS(size)
      ensures (OnBoard(size, p) && p / NS == row) <==> (row * NS + 1 <= p <= row * NS + size)
    {
      if row * NS + 1 <= p <= row * NS + size {
        CoordToPointOnBoard(size, row, p - row * NS);
      }
      if OnBoard(size, p) && p / NS == row {
        OnBoardIsCoord(size, p);
      }
    }

    /** _initialize_empty_points: every on-board cell of an all-BORDER array
        becomes EMPTY, row by row. */
    method InitializeEmptyPoints()
      requires 0 <= size && NS == Layout.NS(size) && maxpoint == MaxPoint(size) && board.Length == maxpoint
      requires forall p :: 0 <= p < maxpoint ==> board[p] == BORDER
      modifies board
      ensures forall p :: 0 <= p < maxpoint ==> board[p] == (if OnBoard(size, p) then EMPTY else BORDER)
    {
      for row := 1 to size + 1
        invariant forall p :: 0 <= p < maxpoint ==>
          board[p] == (if OnBoard(size, p) && p / NS < row then EMPTY else BORDER)
      {
        var start := RowStart(row);
        CoordToPointOnBoard(size, row, size);
        OnBoardBounds(size, CoordToPoint(size, row, size));
        forall q | start <= q < start + size {
          board[q] := EMPTY;
        }
        forall p | 0 <= p < maxpoint
          ensures board[p] == (if OnBoard(size, p) && p / NS < row + 1 then EMPTY else BORDER)
        {
          RowSpan(row, p);
        }
      }
      forall p | 0 <= p < maxpoint && OnBoard(size, p) ensures p / NS < size + 1 {
        OnBoardIsCoord(size, p);
      }
    }

    /** _on_board_neighbors: the neighbours of p that are not BORDER cells. */
    method OnBoardNeighbors(point: int) returns (nbs: seq<int>)
      requires 0 <= size && NS == Layout.NS(size) && maxpoint == MaxPoint(size) && board.Length == maxpoint
      requires forall p :: 0 <= p < maxpoint ==> (board[p] == BORDER <==> !OnBoard(size, p))
      requires OnBoard(size, point)
      ensures nbs == NbrList(size, point)
    {
      var all := Neighbors4(size, point);
      nbs := [];
      for i := 0 to 4
        invariant nbs == KeepOnBoard(size, all[..i])
      {
        assert all[..i + 1][..i] == all[..i];
        if board[all[i]] != BORDER {
          nbs := nbs + [all[i]];
        }
      }
      assert all[..4] == all;
    }

    /** _initialize_neighbors: the neighbour table of every point. */
    method InitializeNeighbors()
      requires 0 <= size && NS == Layout.NS(size) && maxpoint == MaxPoint(size) && board.Length == maxpoint
      requires forall p :: 0 <= p < maxpoint ==> (board[p] == BORDER <==> !OnBoard(size, p))
      modifies this`neighbors
      ensures |neighbors| == maxpoint
      ensures forall p :: 0 <= p < maxpoint ==> neighbors[p] == NbrList(size, p)
      ensures forall p, k :: 0 <= p < maxpoint && 0 <= k < |neighbors[p]| ==> 0 <= neighbors[p][k] < maxpoint
    {
      neighbors := [];
      for point := 0 to maxpoint
        invariant |neighbors| == point
        invariant forall p :: 0 <= p < point ==> neighbors[p] == NbrList(size, p)
        invariant forall p, k :: 0 <= p < point && 0 <= k < |neighbors[p]| ==> 0 <= neighbors[p][k] < maxpoint
      {
        if board[point] == BORDER {
          neighbors := neighbors + [[]];
        } else {
          var nbs := OnBoardNeighbors(point);
          forall k | 0 <= k < |nbs| ensures 0 <= nbs[k] < maxpoint {
            NbrInRange(size, point, nbs[k]);
          }
          neighbors := neighbors + [nbs];
        }
      }
    }

    /** copy: a fresh board with the same size, cells, player and ko point. */
    method Copy() returns (b: SimpleGoBoard)
      requires Valid() && 2 <= size <= MAXSIZE
      ensures fresh(b) && fresh(b.board) && b.Valid()
      ensures b.size == size && b.Cells() == Cells()
      ensures b.currentPlayer == currentPlayer && b.koRecapture == koRecapture
    {
      b := new SimpleGoBoard(size);
      b.koRecapture := koRecapture;
      b.currentPlayer := currentPlayer;
      var cells := new int[maxpoint];
      forall i | 0 <= i < maxpoint {
        cells[i] := board[i];
      }
      b.board := cells;
      assert b.board[..] == board[..];
    }

    /** On an on-board point, the neighbour table lists exactly the adjacent
        points that are not BORDER. */
    lemma NeighborIffAdjacent(p: int, x: int)
      requires Valid() && 0 <= p < maxpoint && board[p] != BORDER
      ensures x in neighbors[p] <==> Adjacent(size, p, x) && 0 <= x < maxpoint && board[x] != BORDER
    {
      NbrListMembership(size, p, x);
      if x in neighbors[p] { NbrInRange(size, p, x); }
      if Adjacent(size, p, x) && 0 <= x < maxpoint && board[x] != BORDER {
        OnBoardBounds(size, p);
      }
    }

    /** get_color */
    function GetColor(point: int): (c: int)
      reads this, board
      requires Valid() && 0 <= point < maxpoint
      ensures EMPTY <= c <= BORDER
      ensures c == BORDER <==> !OnBoard(size, point)
    {
      board[point]
    }

    /** neighbors_of_color: the on-board neighbours of point that hold color,
        in table order. */
    method NeighborsOfColor(point: int, color: int) returns (nbc: seq<int>)
      requires Valid() && 0 <= point < maxpoint
      ensures forall x :: x in nbc <==> x in neighbors[point] && board[x] == color
      ensures forall k :: 0 <= k < |nbc| ==> 0 <= nbc[k] < maxpoint
    {
      var nbs := neighbors[point];
      nbc := [];
      for i := 0 to |nbs|
        invariant forall x :: x in nbc <==> x in nbs[..i] && board[x] == color
        invariant forall k :: 0 <= k < |nbc| ==> 0 <= nbc[k] < maxpoint
      {
        assert nbs[..i + 1] == nbs[..i] + [nbs[i]];
        if board[nbs[i]] == color {
          nbc := nbc + [nbs[i]];
        }
      }
      assert nbs[..|nbs|] == nbs;
    }

    /** find_neighbor_of_color: the first neighbour of point holding color, or
        None when there is none. */
    method FindNeighborOfColor(point: int, color: int) returns (r: Option<int>)
      requires Valid() && 0 <= point < maxpoint
      ensures r.Some? ==> r.value in neighbors[point] && board[r.value] == color
      ensures r.None? <==> forall x :: x in neighbors[point] ==> board[x] != color
    {
      var nbs := neighbors[point];
      for i := 0 to |nbs|
        invariant forall k :: 0 <= k < i ==> board[nbs[k]] != color
      {
        if board[nbs[i]] == color {
          return Some(nbs[i]);
        }
      }
      return None;
    }

    /** _stone_has_liberty: the stone itself touches an EMPTY point. */
    method StoneHasLiberty(stone: int) returns (r: bool)
      requires Valid() && 0 <= stone < maxpoint
      ensures r <==> exists x :: x in neighbors[stone] && board[x] == EMPTY
    {
      var lib := FindNeighborOfColor(stone, EMPTY);
      r := lib != None;
    }

    /** _is_surrounded: every on-board neighbour of point holds color. */
    method IsSurrounded(point: int, color: int) returns (r: bool)
      requires Valid() && 0 <= point < maxpoint
      ensures r <==> forall x :: x in neighbors[point] ==> board[x] == color
    {
      var nbs := neighbors[point];
      for i := 0 to |nbs|
        invariant forall k :: 0 <= k < i ==> board[nbs[k]] == color
      {
        if board[nbs[i]] != color {
          return false;
        }
      }
      return true;
    }

    /** The number of the points ds that hold color. */
    ghost function CountColor(ds: seq<int>, color: int): (n: nat)
      reads this, board
      requires forall k :: 0 <= k < |ds| ==> 0 <= ds[k] < board.Length
      ensures n <= |ds|
      ensures n == 0 <==> forall k :: 0 <= k < |ds| ==> board[ds[k]] != color
    {
      if ds == [] then 0
      else CountColor(ds[..|ds| - 1], color) + (if board[ds[|ds| - 1]] == color then 1 else 0)
    }

    /** Some point of ds is BORDER. */
    ghost predicate AnyBorder(ds: seq<int>)
      reads this, board
      requires forall k :: 0 <= k < |ds| ==> 0 <= ds[k] < board.Length
    {
      exists k :: 0 <= k < |ds| && board[ds[k]] == BORDER
    }

    /** The diagonal scan of is_eye: the number of opponent stones on ds
        and whether one of ds is BORDER. */
    method CountDiagonals(ds: seq<int>, opp: int) returns (falseCount: int, atEdge: int)
      requires forall k :: 0 <= k < |ds| ==> 0 <= ds[k] < board.Length
      requires opp != BORDER
      ensures falseCount == CountColor(ds, opp)
      ensures atEdge == (if AnyBorder(ds) then 1 else 0)
    {
      falseCount, atEdge := 0, 0;
      for i := 0 to |ds|
        invariant falseCount == CountColor(ds[..i], opp)
        invariant atEdge == (if AnyBorder(ds[..i]) then 1 else 0)
      {
        assert ds[..i + 1][..i] == ds[..i];
        assert AnyBorder(ds[..i + 1]) <==> AnyBorder(ds[..i]) || board[ds[i]] == BORDER by {
          if board[ds[i]] == BORDER { assert ds[..i + 1][i] == ds[i]; }
        }
        if board[ds[i]] == BORDER {
          atEdge := 1;
        } else if board[ds[i]] == opp {
          falseCount := falseCount + 1;
        }
      }
      assert ds[..|ds|] == ds;
    }

    /** is_eye: point is surrounded by color and its diagonal points hold at
        most one opponent stone in the centre of the board and none at the
        edge (otherwise it is a false eye). */
    method IsEye(point: int, color: int) returns (r: bool)
      requires Valid() && 0 <= point < maxpoint && OnBoard(size, point) && IsBlackWhite(color)
      ensures var ds := DiagNeighbors(size, point);
        r <==> (forall x :: x in neighbors[point] ==> board[x] == color)
               && CountColor(ds, Opponent(color)) <= 1 - (if AnyBorder(ds) then 1 else 0)
    {
      var surrounded := IsSurrounded(point, color);
      if !surrounded {
        return false;
      }
      var falseCount, atEdge := CountDiagonals(DiagNeighbors(size, point), Opponent(color));
      r := falseCount <= 1 - atEdge;
    }

    /** Every marked point is in the block of stone. */
    ghost predicate MarksInBlock(marker: array<bool>, stone: int)
      reads this, board, marker
    {
      && marker.Length == maxpoint
      && forall q :: 0 <= q < maxpoint && marker[q] ==> Connected(Cells(), size, stone, q)
    }

    /** Every marked point outside `pending` and other than `skip` has all its
        same-coloured neighbours marked. */
    ghost predicate ClosedExcept(marker: array<bool>, color: int, pending: seq<int>, skip: int)
      reads this, board, marker
    {
      && marker.Length == maxpoint && board.Length == maxpoint
      && forall q, x ::
           (0 <= q < maxpoint && marker[q] && q !in pending && q != skip &&
            Adjacent(size, q, x) && 0 <= x < maxpoint && board[x] == color) ==> marker[x]
    }

    lemma ClosedPop(marker: array<bool>, color: int, pending: seq<int>, p: int)
      requires ClosedExcept(marker, color, pending + [p], -1)
      ensures ClosedExcept(marker, color, pending, p)
    {
      forall q | q !in pending && q != p
        ensures q !in pending + [p]
      {
      }
    }

    /** The inner step of _block_of: mark the unmarked points of nbs, the
        same-coloured neighbours of p, and push them on the stack. */
    method MarkNeighbors(marker: array<bool>, stone: int, p: int, nbs: seq<int>, pointstack: seq<int>,
                         ghost unmarked: set<int>)
      returns (stack': seq<int>, ghost unmarked': set<int>)
      requires board.Length == maxpoint && marker.Length == maxpoint
      requires 0 <= stone < maxpoint && 0 <= p < maxpoint
      requires forall k :: 0 <= k < |nbs| ==> 0 <= nbs[k] < maxpoint
      requires Connected(Cells(), size, stone, p) && marker[p]
      requires forall x :: x in nbs <==> Adjacent(size, p, x) && 0 <= x < maxpoint && board[x] == board[stone]
      requires forall q :: q in unmarked <==> 0 <= q < maxpoint && !marker[q]
      requires MarksInBlock(marker, stone)
      requires forall x :: x in pointstack ==> 0 <= x < maxpoint && marker[x]
      requires ClosedExcept(marker, board[stone], pointstack, p)
      modifies marker
      ensures forall q :: q in unmarked' <==> 0 <= q < maxpoint && !marker[q]
      ensures unmarked' < unmarked || (unmarked' == unmarked && stack' == pointstack)
      ensures MarksInBlock(marker, stone)
      ensures forall x :: x in stack' ==> 0 <= x < maxpoint && marker[x]
      ensures ClosedExcept(marker, board[stone], stack', -1)
      ensures forall q :: 0 <= q < maxpoint && old(marker[q]) ==> marker[q]
    {
      stack' := pointstack;
      unmarked' := unmarked;
      ConnectedColor(Cells(), size, stone, p);
      for j := 0 to |nbs|
        invariant forall q :: q in unmarked' <==> 0 <= q < maxpoint && !marker[q]
        invariant unmarked' < unmarked || (unmarked' == unmarked && stack' == pointstack)
        invariant marker[p] && MarksInBlock(marker, stone)
        invariant forall x :: x in stack' ==> 0 <= x < maxpoint && marker[x]
        invariant ClosedExcept(marker, board[stone], stack', p)
        invariant forall k :: 0 <= k < j ==> marker[nbs[k]]
        invariant forall q :: 0 <= q < maxpoint && old(marker[q]) ==> marker[q]
      {
        var nb := nbs[j];
        if !marker[nb] {
          ConnectedStep(Cells(), size, stone, p, nb);
          marker[nb] := true;
          stack' := stack' + [nb];
          unmarked' := unmarked' - {nb};
        }
      }
    }

    /** One iteration of the _block_of loop: pop a point and mark its
        unmarked same-coloured neighbours. */
    method FloodStep(marker: array<bool>, stone: int, pointstack: seq<int>, ghost unmarked: set<int>)
      returns (stack': seq<int>, ghost unmarked': set<int>)
      requires Valid() && 0 <= stone < maxpoint && IsBlackWhite(board[stone]) && pointstack != []
      requires marker.Length == maxpoint
      requires forall q :: q in unmarked <==> 0 <= q < maxpoint && !marker[q]
      requires marker[stone] && MarksInBlock(marker, stone)
      requires forall x :: x in pointstack ==> 0 <= x < maxpoint && marker[x]
      requires ClosedExcept(marker, board[stone], pointstack, -1)
      modifies marker
      ensures forall q :: q in unmarked' <==> 0 <= q < maxpoint && !marker[q]
      ensures marker[stone] && MarksInBlock(marker, stone)
      ensures forall x :: x in stack' ==> 0 <= x < maxpoint && marker[x]
      ensures ClosedExcept(marker, board[stone], stack', -1)
      ensures unmarked' < unmarked || (unmarked' == unmarked && |stack'| < |pointstack|)
    {
      var p := pointstack[|pointstack| - 1];
      assert p in pointstack;
      assert pointstack == pointstack[..|pointstack| - 1] + [p];
      var rest := pointstack[..|pointstack| - 1];
      assert forall x :: x in rest ==> x in pointstack;
      ClosedPop(marker, board[stone], rest, p);
      var nbs := NeighborsOfColor(p, board[stone]);
      ConnectedColor(Cells(), size, stone, p);
      forall x ensures x in nbs <==> Adjacent(size, p, x) && 0 <= x < maxpoint && board[x] == board[stone] {
        NeighborIffAdjacent(p, x);
      }
      stack', unmarked' := MarkNeighbors(marker, stone, p, nbs, rest, unmarked);
    }

    /** _block_of: the marker array of the block of stone, built by a
        depth-first flood fill over the same-coloured neighbours. */
    method BlockOf(stone: int) returns (marker: array<bool>)
      requires Valid() && 0 <= stone < maxpoint && IsBlackWhite(board[stone])
      ensures fresh(marker) && marker.Length == maxpoint
      ensures forall q :: 0 <= q < maxpoint ==> (marker[q] <==> Connected(Cells(), size, stone, q))
    {
      marker := new bool[maxpoint](_ => false);
      var color := board[stone];
      var pointstack := [stone];
      marker[stone] := true;
      ConnectedRefl(Cells(), size, stone);
      ghost var unmarked := set q | 0 <= q < maxpoint && !marker[q];
      while pointstack != []
        invariant Valid() && color == board[stone]
        invariant forall q :: q in unmarked <==> 0 <= q < maxpoint && !marker[q]
        invariant marker[stone] && MarksInBlock(marker, stone)
        invariant forall x :: x in pointstack ==> 0 <= x < maxpoint && marker[x]
        invariant ClosedExcept(marker, color, pointstack, -1)
        decreases unmarked, |pointstack|
      {
        pointstack, unmarked := FloodStep(marker, stone, pointstack, unmarked);
      }
      ClosedMarksBlock(marker, stone);
    }

    /** A closed marking that contains stone and lies inside its block is the block. */
    lemma ClosedMarksBlock(marker: array<bool>, stone: int)
      requires board.Length == maxpoint && MarksInBlock(marker, stone) && 0 <= stone < maxpoint && marker[stone]
      requires ClosedExcept(marker, board[stone], [], -1)
      ensures forall q :: 0 <= q < maxpoint ==> (marker[q] <==> Connected(Cells(), size, stone, q))
    {
      assert ClosedUnder(Cells(), size, board[stone], marker[..]);
      forall q | 0 <= q < maxpoint && Connected(Cells(), size, stone, q)
        ensures marker[q]
      {
        ClosedContainsBlock(Cells(), size, marker[..], stone, q);
      }
    }

    /** For a point that is not BORDER, an EMPTY point in its neighbour table
        is exactly an EMPTY orthogonal neighbour. */
    lemma EmptyNeighborIff(q: int)
      requires Valid() && 0 <= q < maxpoint && board[q] != BORDER
      ensures (exists x :: x in neighbors[q] && board[x] == EMPTY) <==> HasEmptyNeighbor(Cells(), size, q)
    {
      if exists x :: x in neighbors[q] && board[x] == EMPTY {
        var x :| x in neighbors[q] && board[x] == EMPTY;
        NeighborIffAdjacent(q, x);
      }
      if HasEmptyNeighbor(Cells(), size, q) {
        var x :| Adjacent(size, q, x) && 0 <= x < |Cells()| && Cells()[x] == EMPTY;
        NeighborIffAdjacent(q, x);
      }
    }

    /** _get_liberty: an EMPTY neighbour of some marked stone, or None when no
        marked stone has one. */
    method GetLiberty(block: array<bool>) returns (lib: Option<int>)
      requires Valid() && block.Length == maxpoint
      requires forall s :: 0 <= s < maxpoint && block[s] ==> board[s] != BORDER
      ensures lib.Some? ==> 0 <= lib.value < maxpoint && board[lib.value] == EMPTY
      ensures lib.Some? ==> exists s :: 0 <= s < maxpoint && block[s] && Adjacent(size, s, lib.value)
      ensures lib.None? <==> forall s :: 0 <= s < maxpoint && block[s] ==> !HasEmptyNeighbor(Cells(), size, s)
    {
      var stones := Where1d(block[..]);
      for i := 0 to |stones|
        invariant forall k :: 0 <= k < i ==> !HasEmptyNeighbor(Cells(), size, stones[k])
      {
        var stone := stones[i];
        var found := FindNeighborOfColor(stone, EMPTY);
        EmptyNeighborIff(stone);
        if found.Some? {
          NeighborIffAdjacent(stone, found.value);
          return found;
        }
      }
      forall s | 0 <= s < maxpoint && block[s]
        ensures !HasEmptyNeighbor(Cells(), size, s)
      {
        assert s in stones;
      }
      return None;
    }

    /** _has_liberty: some marked stone has an EMPTY neighbour. */
    method HasLiberty(block: array<bool>) returns (r: bool)
      requires Valid() && block.Length == maxpoint
      requires forall s :: 0 <= s < maxpoint && block[s] ==> board[s] != BORDER
      ensures r <==> exists s :: 0 <= s < maxpoint && block[s] && HasEmptyNeighbor(Cells(), size, s)
    {
      var lib := GetLiberty(block);
      r := lib != None;
    }

    /** The block of stone has a liberty exactly when one of the points the
        block marker holds has an EMPTY neighbour. */
    lemma BlockLibertyIff(block: array<bool>, stone: int)
      requires 0 <= stone < board.Length == block.Length
      requires forall q :: 0 <= q < block.Length ==> (block[q] <==> Connected(Cells(), size, stone, q))
      ensures BlockHasLiberty(Cells(), size, stone) <==>
                exists s :: 0 <= s < block.Length && block[s] && HasEmptyNeighbor(Cells(), size, s)
    {
      if BlockHasLiberty(Cells(), size, stone) {
        var q :| Connected(Cells(), size, stone, q) && HasEmptyNeighbor(Cells(), size, q);
        ConnectedColor(Cells(), size, stone, q);
        assert block[q];
      }
    }

    /** The stone's own liberty is a liberty of its block. */
    lemma StoneLibertyIsBlockLiberty(stone: int)
      requires Valid() && 0 <= stone < maxpoint && board[stone] != BORDER
      requires exists x :: x in neighbors[stone] && board[x] == EMPTY
      ensures BlockHasLiberty(Cells(), size, stone)
    {
      EmptyNeighborIff(stone);
      ConnectedRefl(Cells(), size, stone);
    }

    /** _detect_capture: the block of the stone on nb_point has no liberty. */
    method DetectCapture(nbPoint: int) returns (r: bool)
      requires Valid() && 0 <= nbPoint < maxpoint && IsBlackWhite(board[nbPoint])
      ensures r <==> !BlockHasLiberty(Cells(), size, nbPoint)
    {
      var quick := StoneHasLiberty(nbPoint);
      if quick {
        StoneLibertyIsBlockLiberty(nbPoint);
        return false;
      }
      var oppBlock := BlockOf(nbPoint);
      ConnectedBlockColor(oppBlock, nbPoint);
      var hasLib := HasLiberty(oppBlock);
      BlockLibertyIff(oppBlock, nbPoint);
      r := !hasLib;
    }

    /** Every point of the block of a stone has the stone's colour. */
    lemma ConnectedBlockColor(block: array<bool>, stone: int)
      requires Valid() && 0 <= stone < maxpoint && IsBlackWhite(board[stone]) && block.Length == maxpoint
      requires forall q :: 0 <= q < maxpoint ==> (block[q] <==> Connected(Cells(), size, stone, q))
      ensures forall s :: 0 <= s < maxpoint && block[s] ==> board[s] == board[stone] && board[s] != BORDER
    {
      forall s | 0 <= s < maxpoint && block[s]
        ensures board[s] == board[stone]
      {
        ConnectedColor(Cells(), size, stone, s);
      }
    }

    /** _detect_captures: some neighbour of point holding opp_color belongs
        to a block without liberty. */
    method DetectCaptures(point: int, oppColor: int) returns (r: bool)
      requires Valid() && 0 <= point < maxpoint && IsBlackWhite(oppColor)
      ensures r <==> exists nb :: nb in neighbors[point] && board[nb] == oppColor && !BlockHasLiberty(Cells(), size, nb)
    {
      var nbs := NeighborsOfColor(point, oppColor);
      for i := 0 to |nbs|
        invariant forall k :: 0 <= k < i ==> BlockHasLiberty(Cells(), size, nbs[k])
      {
        var captured := DetectCapture(nbs[i]);
        if captured {
          return true;
        }
      }
      return false;
    }

    /** The marked points of a block listed by where1d: one point exactly when
        the block is a single stone. */
    lemma SingleCaptureIff(block: array<bool>, stone: int, captures: seq<int>)
      requires Valid() && 0 <= stone < maxpoint && IsBlackWhite(board[stone]) && block.Length == maxpoint
      requires forall q :: 0 <= q < maxpoint ==> (block[q] <==> Connected(Cells(), size, stone, q))
      requires forall k :: 0 <= k < |captures| ==> 0 <= captures[k] < maxpoint && block[captures[k]]
      requires forall q :: 0 <= q < maxpoint && block[q] ==> q in captures
      requires forall a, b :: 0 <= a < b < |captures| ==> captures[a] < captures[b]
      ensures |captures| == 1 <==> IsSingleStone(Cells(), size, stone)
    {
      ConnectedRefl(Cells(), size, stone);
      assert stone in captures;
      if IsSingleStone(Cells(), size, stone) {
        forall k | 0 <= k < |captures|
          ensures captures[k] == stone
        {
          SingleStoneBlock(Cells(), size, stone, captures[k]);
        }
        assert captures[0] == captures[|captures| - 1];
      } else {
        var x :| Adjacent(size, stone, x) && 0 <= x < |Cells()| && Cells()[x] == Cells()[stone];
        ConnectedStep(Cells(), size, stone, stone, x);
        assert x in captures && x != stone;
        var a :| 0 <= a < |captures| && captures[a] == stone;
        var b :| 0 <= b < |captures| && captures[b] == x;
        assert a != b;
      }
    }

    /** The removal step of _detect_and_process_capture: every listed point of
        the block of stone becomes EMPTY. */
    method RemoveCaptures(block: array<bool>, stone: int, captures: seq<int>)
      requires Valid() && 0 <= stone < maxpoint && IsBlackWhite(board[stone]) && block.Length == maxpoint
      requires forall q :: 0 <= q < maxpoint ==> (block[q] <==> Connected(Cells(), size, stone, q))
      requires forall k :: 0 <= k < |captures| ==> 0 <= captures[k] < maxpoint && block[captures[k]]
      requires forall q :: 0 <= q < maxpoint && block[q] ==> q in captures
      requires forall a, b :: 0 <= a < b < |captures| ==> captures[a] < captures[b]
      modifies board
      ensures Valid()
      ensures board[..] == RemoveBlocks(old(Cells()), size, {stone})
    {
      ConnectedBlockColor(block, stone);
      ghost var c0 := Cells();
      forall k | 0 <= k < |captures| {
        board[captures[k]] := EMPTY;
      }
      forall q | 0 <= q < maxpoint
        ensures board[q] == RemoveBlocks(c0, size, {stone})[q]
      {
        RemovedSingleton(c0, size, stone, q);
        assert block[q] <==> q in captures;
      }
    }

    /** _detect_and_process_capture: when the block of the stone on nb_point
        has no liberty, remove it; report nb_point when it was a single stone. */
    method DetectAndProcessCapture(nbPoint: int) returns (single: Option<int>)
      requires Valid() && 0 <= nbPoint < maxpoint && IsBlackWhite(board[nbPoint])
      modifies board
      ensures Valid()
      ensures old(BlockHasLiberty(Cells(), size, nbPoint)) ==> board[..] == old(board[..]) && single == None
      ensures !old(BlockHasLiberty(Cells(), size, nbPoint)) ==>
                && board[..] == RemoveBlocks(old(Cells()), size, {nbPoint})
                && single == (if IsSingleStone(old(Cells()), size, nbPoint) then Some(nbPoint) else None)
    {
      var quick := StoneHasLiberty(nbPoint);
      if quick {
        StoneLibertyIsBlockLiberty(nbPoint);
        return None;
      }
      var oppBlock := BlockOf(nbPoint);
      ConnectedBlockColor(oppBlock, nbPoint);
      var hasLib := HasLiberty(oppBlock);
      BlockLibertyIff(oppBlock, nbPoint);
      if hasLib {
        return None;
      }
      var captures := Where1d(oppBlock[..]);
      SingleCaptureIff(oppBlock, nbPoint, captures);
      RemoveCaptures(oppBlock, nbPoint, captures);
      single := None;
      if |captures| == 1 {
        single := Some(nbPoint);
      }
    }

    /** One iteration of play_move's capture scan: when the i-th neighbour
        of point still holds opp, detect and process its capture. */
    method CaptureStep(point: int, opp: int, i: int, ghost c1: seq<int>, singles: seq<int>, ghost dead: set<int>)
      returns (singles': seq<int>, ghost dead': set<int>)
      requires Valid() && 0 <= point < maxpoint && IsBlackWhite(opp)
      requires Distinct(neighbors[point]) && 0 <= i < |neighbors[point]|
      requires ScanInv(Cells(), size, neighbors[point], i, c1, opp, singles, dead)
      modifies board
      ensures Valid()
      ensures ScanInv(Cells(), size, neighbors[point], i + 1, c1, opp, singles', dead')
    {
      var nbs := neighbors[point];
      var nb := nbs[i];
      singles', dead' := singles, dead;
      if board[nb] == opp {
        ghost var b := Cells();
        var singleCapture := DetectAndProcessCapture(nb);
        if BlockHasLiberty(b, size, nb) {
          ScanKeep(b, size, nbs, i, c1, opp, singles, dead);
        } else {
          ScanCapture(b, size, nbs, i, c1, opp, singles, dead);
          dead' := dead + {nb};
        }
        if singleCapture != None {
          singles' := singles' + [singleCapture.value];
        }
      } else {
        ScanSkip(Cells(), size, nbs, i, c1, opp, singles, dead);
      }
    }

    /** Put a stone of color on the EMPTY point. */
    method SetCell(point: int, color: int)
      requires Valid() && 0 <= point < maxpoint && board[point] == EMPTY && IsBlackWhite(color)
      modifies board
      ensures Valid() && board[..] == old(board[..])[point := color]
    {
      board[point] := color;
    }

    /** The first part of play_move: place the stone and process the
        captures of the neighbouring opponent blocks. */
    method PlaceAndCapture(point: int, color: int) returns (singles: seq<int>, ghost c1: seq<int>, ghost captured: set<int>)
      requires Valid() && 0 <= point < maxpoint && board[point] == EMPTY && IsBlackWhite(color)
      modifies board
      ensures Valid()
      ensures c1 == old(Cells())[point := color]
      ensures captured == DeadNeighbors(c1, size, neighbors[point], Opponent(color))
      ensures board[..] == RemoveBlocks(c1, size, captured)
      ensures singles == SingleCaptures(c1, size, neighbors[point], Opponent(color))
      ensures board[point] == color
      ensures captured == {} ==> board[..] == c1
      ensures captured != {} ==> exists x :: x in neighbors[point] && board[x] == EMPTY
    {
      var opp := Opponent(color);
      var nbs := neighbors[point];
      NbrListDistinct(size, point);
      SetCell(point, color);
      c1 := Cells();
      singles := [];
      ghost var dead: set<int> := {};
      RemoveNothing(c1, size);
      assert nbs[..0] == [];
      for i := 0 to |nbs|
        invariant Valid()
        invariant ScanInv(Cells(), size, nbs, i, c1, opp, singles, dead)
      {
        singles, dead := CaptureStep(point, opp, i, c1, singles, dead);
      }
      ScanDone(Cells(), size, nbs, c1, opp, singles, dead);
      captured := DeadNeighbors(c1, size, nbs, opp);
    }

    /** The suicide test of play_move and is_legal: the block of the stone on
        point has a liberty (the stone's own EMPTY neighbour first, then the
        whole block). */
    method CheckLiberty(point: int) returns (r: bool)
      requires Valid() && 0 <= point < maxpoint && IsBlackWhite(board[point])
      ensures r <==> BlockHasLiberty(Cells(), size, point)
    {
      var stoneLib := StoneHasLiberty(point);
      if stoneLib {
        StoneLibertyIsBlockLiberty(point);
        return true;
      }
      var block := BlockOf(point);
      ConnectedBlockColor(block, point);
      r := HasLiberty(block);
      BlockLibertyIff(block, point);
    }

    /** Take back the stone just placed on point, restoring the cells c0. */
    method UndoPlace(point: int, ghost c0: seq<int>)
      requires Valid() && 0 <= point < maxpoint && |c0| == maxpoint && c0[point] == EMPTY
      requires board[..] == c0[point := board[point]] && IsBlackWhite(board[point])
      modifies board
      ensures Valid() && board[..] == c0
    {
      board[point] := EMPTY;
      assert board[..] == c0;
    }

    /** Place the stone, process the captures and undo the placement when
        it is suicide; on a legal move also report the new ko point. */
    method TryPlace(point: int, color: int) returns (legal: bool, ko: Option<int>)
      requires Valid() && IsBlackWhite(color) && 0 <= point < maxpoint && board[point] == EMPTY
      modifies board
      ensures Valid()
      ensures legal <==> GoLegal(old(Cells()), size, neighbors[point], point, color)
      ensures legal ==> board[..] == GoAfter(old(Cells()), size, neighbors[point], point, color)
                        && BlockHasLiberty(Cells(), size, point)
                        && ko == GoKo(old(Cells()), size, neighbors[point], point, color)
      ensures !legal ==> board[..] == old(board[..])
    {
      ghost var c0 := Cells();
      var inEnemyEye := IsSurrounded(point, Opponent(color));
      var singles;
      ghost var c1, captured;
      singles, c1, captured := PlaceAndCapture(point, color);
      GoKoIs(c0, size, neighbors[point], point, color, inEnemyEye, singles);
      ko := if inEnemyEye && |singles| == 1 then Some(singles[0]) else None;
      legal := CheckLiberty(point);
      if captured != {} {
        StoneLibertyIsBlockLiberty(point);
      }
      GoLegalIff(c0, size, neighbors[point], point, color, Cells());
      if !legal {
        UndoPlace(point, c0);
      }
    }

    /** The general case of play_move: color plays on an EMPTY point that
        is not the ko point. */
    method PlayStone(point: int, color: int) returns (r: bool)
      requires Valid() && IsBlackWhite(color) && 0 <= point < maxpoint && board[point] == EMPTY
      modifies board, this`currentPlayer, this`koRecapture
      ensures Valid()
      ensures r <==> GoLegal(old(Cells()), size, neighbors[point], point, color)
      ensures r ==>
        && board[..] == GoAfter(old(Cells()), size, neighbors[point], point, color)
        && koRecapture == GoKo(old(Cells()), size, neighbors[point], point, color)
        && currentPlayer == Opponent(color)
        && BlockHasLiberty(Cells(), size, point)
      ensures !r ==> board[..] == old(board[..]) && koRecapture == old(koRecapture) && currentPlayer == old(currentPlayer)
    {
      var ko;
      r, ko := TryPlace(point, color);
      if r {
        koRecapture := ko;
        currentPlayer := Opponent(color);
      }
    }

    /** play_move: play color on move under the Go rules. A pass is always
        legal and clears the ko point; a stone is legal on an EMPTY point
        that is not the ko point and is not suicide. A legal move removes
        the captured blocks, sets the ko point and passes the turn; an
        illegal one changes nothing. */
    method PlayMove(move: Move, color: int) returns (r: bool)
      requires Valid() && IsBlackWhite(color) && (move.At? ==> 0 <= move.point < maxpoint)
      modifies board, this`currentPlayer, this`koRecapture
      ensures Valid()
      ensures move.Pass? ==> r && board[..] == old(board[..]) && koRecapture == None && currentPlayer == Opponent(color)
      ensures move.At? ==>
        var point := move.point;
        (r <==> old(board[point]) == EMPTY && old(koRecapture) != Some(point)
                && GoLegal(old(Cells()), size, neighbors[point], point, color))
      ensures move.At? && r ==>
        var point := move.point;
        && board[..] == GoAfter(old(Cells()), size, neighbors[point], point, color)
        && koRecapture == GoKo(old(Cells()), size, neighbors[point], point, color)
        && currentPlayer == Opponent(color)
        && BlockHasLiberty(Cells(), size, point)
      ensures move.At? && !r ==>
        board[..] == old(board[..]) && koRecapture == old(koRecapture) && currentPlayer == old(currentPlayer)
    {
      if move.Pass? {
        koRecapture := None;
        currentPlayer := Opponent(color);
        return true;
      }
      var point := move.point;
      if board[point] != EMPTY {
        return false;
      }
      if koRecapture == Some(point) {
        return false;
      }
      r := PlayStone(point, color);
    }

    /** The test is_legal makes with the stone of color on point: a
        neighbouring opponent block has lost its last liberty, or else the
        block of the stone has a liberty. */
    method PlacedLegal(point: int, color: int) returns (legal: bool)
      requires Valid() && 0 <= point < maxpoint && IsBlackWhite(color) && board[point] == color
      ensures legal <==> DeadNeighbors(Cells(), size, neighbors[point], Opponent(color)) != {}
                         || BlockHasLiberty(Cells(), size, point)
    {
      var opp := Opponent(color);
      legal := true;
      var hasCapture := DetectCaptures(point, opp);
      if hasCapture {
        ghost var nb :| nb in neighbors[point] && board[nb] == opp && !BlockHasLiberty(Cells(), size, nb);
        assert nb in DeadNeighbors(Cells(), size, neighbors[point], opp);
      } else {
        assert DeadNeighbors(Cells(), size, neighbors[point], opp) == {};
        var lib := CheckLiberty(point);
        if !lib {
          legal := false;
        }
      }
    }

    /** is_legal: whether color may play move under the Go rules, decided
        by placing the stone, testing captures and suicide, and taking the
        stone back. */
    method IsLegal(move: Move, color: int) returns (r: bool)
      requires Valid() && IsBlackWhite(color) && (move.At? ==> 0 <= move.point < maxpoint)
      modifies board
      ensures Valid() && board[..] == old(board[..])
      ensures r <==> move.Pass? ||
                     (board[move.point] == EMPTY && koRecapture != Some(move.point)
                      && GoLegal(Cells(), size, neighbors[move.point], move.point, color))
    {
      if move.Pass? {
        return true;
      }
      var point := move.point;
      if board[point] != EMPTY {
        return false;
      }
      if koRecapture == Some(point) {
        return false;
      }
      ghost var c0 := Cells();
      SetCell(point, color);
      r := PlacedLegal(point, color);
      UndoPlace(point, c0);
    }

    /** get_empty_points: the EMPTY points, ascending. */
    function GetEmptyPoints(): (r: seq<int>)
      reads this, board
      ensures forall k :: 0 <= k < |r| ==> 0 <= r[k] < board.Length && board[r[k]] == EMPTY
      ensures forall q :: 0 <= q < board.Length && board[q] == EMPTY ==> q in r
      ensures forall a, b :: 0 <= a < b < |r| ==> r[a] < r[b]
    {
      Where1d(seq(board.Length, q requires 0 <= q < board.Length reads this, board => board[q] == EMPTY))
    }

    /** is_legal_gomoku: a Gomoku move is legal exactly on an EMPTY point. */
    function IsLegalGomoku(point: int, color: int): (r: bool)
      reads this, board
      requires Valid() && 0 <= point < maxpoint
      ensures r <==> OnBoard(size, point) && board[point] == EMPTY
    {
      board[point] == EMPTY
    }

    /** The ascending list of the points holding c (where1d(board == c)). */
    function PointsOf(c: int): (r: seq<int>)
      reads this, board
      ensures forall k :: 0 <= k < |r| ==> 0 <= r[k] < board.Length && board[r[k]] == c
      ensures forall q :: 0 <= q < board.Length && board[q] == c ==> q in r
      ensures forall a, b :: 0 <= a < b < |r| ==> r[a] < r[b]
    {
      Where1d(seq(board.Length, q requires 0 <= q < board.Length reads this, board => board[q] == c))
    }

    /** play_move_gomoku: a stone goes on any EMPTY point, with no capture;
        the turn passes to the opponent. */
    method PlayMoveGomoku(point: int, color: int) returns (r: bool)
      requires Valid() && IsBlackWhite(color) && 0 <= point < maxpoint
      modifies board, this`currentPlayer
      ensures Valid()
      ensures r <==> old(board[point]) == EMPTY
      ensures r ==> board[..] == old(board[..])[point := color] && currentPlayer == Opponent(color)
      ensures !r ==> board[..] == old(board[..]) && currentPlayer == old(currentPlayer)
    {
      if board[point] != EMPTY {
        return false;
      }
      board[point] := color;
      currentPlayer := Opponent(color);
      return true;
    }

    /** A step from a stone along one of the four directions, or back,
        stays inside the array: the border rows and columns surround the
        board. */
    lemma StepInRange(p: int, d: int)
      requires Valid() && 0 <= p < maxpoint && IsBlackWhite(board[p])
      requires d in Directions(NS) || -d in Directions(NS)
      ensures 0 <= p + d < maxpoint
    {
      OnBoardBounds(size, p);
    }

    /** One of the two walks of _point_direction_check_connect_gomoko:
        from point along d, add the stones of the point's colour met before
        the first other cell to count, stopping when count reaches 5. */
    method CountAlong(point: int, d: int, count0: int) returns (count: int)
      requires Valid() && 0 <= point < maxpoint && IsBlackWhite(board[point])
      requires d in Directions(NS) || -d in Directions(NS)
      requires 1 <= count0 <= 5
      requires count0 == 5 ==> !Holds(Cells(), point + d, board[point])
      ensures count == count0 + RunLen(Cells(), point, d, board[point], 5 - count0)
    {
      ghost var cells := Cells();
      var color := board[point];
      count := count0;
      var p := point;
      while true
        invariant count0 <= count <= 5
        invariant 0 <= p < maxpoint && board[p] == color
        invariant count0 == 5 ==> p == point
        invariant count0 < 5 ==> count < 5
        invariant RunLen(cells, point, d, color, 5 - count0) == (count - count0) + RunLen(cells, p, d, color, 5 - count)
        decreases 5 - count
      {
        StepInRange(p, d);
        p := p + d;
        if board[p] == color {
          count := count + 1;
          if count == 5 {
            break;
          }
        } else {
          break;
        }
      }
    }

    /** _point_direction_check_connect_gomoko: count the stones of the
        point's colour met walking from point along shift and then along
        -shift, stopping at the fifth; the point is in five in a row along
        shift when the count reaches 5. */
    method DirectionCheck(point: int, shift: int) returns (r: bool)
      requires Valid() && 0 <= point < maxpoint && IsBlackWhite(board[point]) && shift in Directions(NS)
      requires NoOverrun(Cells(), point, shift, board[point])
      ensures r <==> Five(Cells(), point, shift, board[point])
    {
      var count := CountAlong(point, shift, 1);
      ghost var forward := count;
      count := CountAlong(point, -shift, count);
      TwoWalks(Cells(), point, shift, board[point], forward, count);
      assert count <= 5;
      r := count == 5;
    }

    /** point_check_game_end_gomoku: the stone on point is in five in a row
        horizontally, vertically or along either diagonal. */
    method PointCheckGameEndGomoku(point: int) returns (r: bool)
      requires Valid() && 0 <= point < maxpoint && IsBlackWhite(board[point])
      requires forall d :: d in Directions(NS) ==> NoOverrun(Cells(), point, d, board[point])
      ensures r <==> FiveAt(Cells(), NS, point)
    {
      var dirs := Directions(NS);
      r := DirectionCheck(point, 1);
      if r {
        assert dirs[0] in dirs;
        return;
      }
      r := DirectionCheck(point, NS);
      if r {
        assert dirs[1] in dirs;
        return;
      }
      r := DirectionCheck(point, NS + 1);
      if r {
        assert dirs[2] in dirs;
        return;
      }
      r := DirectionCheck(point, NS - 1);
    }

    /** One of the two scans of check_game_end_gomoku: the points of colour
        c, ascending, until one of them is in five in a row. */
    method ScanForFive(points: seq<int>, c: int) returns (found: bool)
      requires Valid() && IsBlackWhite(c) && ListsStones(Cells(), points, c)
      ensures found ==> HasFive(Cells(), NS, c)
      ensures !found ==> !HasFive(Cells(), NS, c)
    {
      for i := 0 to |points|
        invariant forall j :: 0 <= j < i ==> !FiveAt(Cells(), NS, points[j])
      {
        ScanReady(points, c, i);
        found := PointCheckGameEndGomoku(points[i]);
        if found {
          FiveWitness(Cells(), NS, points, c, i);
          return;
        }
      }
      NoneInFive(Cells(), NS, points, c);
      found := false;
    }

    /** The list of the points holding c lists the stones of colour c of
        the cells, ascending. */
    lemma ListsStonesOf(points: seq<int>, c: int)
      requires Valid() && points == PointsOf(c)
      ensures ListsStones(Cells(), points, c)
    {
    }

    /** In the scan, the next listed stone may be checked: the walks from
        it stop at five. */
    lemma ScanReady(points: seq<int>, c: int, i: int)
      requires Valid() && IsBlackWhite(c) && ListsStones(Cells(), points, c) && 0 <= i < |points|
      requires forall j :: 0 <= j < i ==> !FiveAt(Cells(), NS, points[j])
      ensures 0 <= points[i] < maxpoint && board[points[i]] == c
      ensures forall d :: d in Directions(NS) ==> NoOverrun(Cells(), points[i], d, board[points[i]])
    {
      assert OnBoard(size, points[i]);
      ScanNoOverrun(Cells(), NS, points, c, i);
    }

    /** check_game_end_gomoku: WHITE wins when one of its stones is in five
        in a row; failing that, BLACK wins on the same condition; otherwise
        the game goes on. */
    method CheckGameEndGomoku() returns (ended: bool, winner: Option<int>)
      requires Valid()
      ensures HasFive(Cells(), NS, WHITE) ==> ended && winner == Some(WHITE)
      ensures !HasFive(Cells(), NS, WHITE) && HasFive(Cells(), NS, BLACK) ==> ended && winner == Some(BLACK)
      ensures !HasFive(Cells(), NS, WHITE) && !HasFive(Cells(), NS, BLACK) ==> !ended && winner == None
    {
      var whitePoints := PointsOf(WHITE);
      var blackPoints := PointsOf(BLACK);
      ListsStonesOf(whitePoints, WHITE);
      ListsStonesOf(blackPoints, BLACK);
      var found := ScanForFive(whitePoints, WHITE);
      if found {
        return true, Some(WHITE);
      }
      found := ScanForFive(blackPoints, BLACK);
      if found {
        return true, Some(BLACK);
      }
      return false, None;
    }

    /** The first part of check_pattern: when the characters read so far
        form a key of some category's table, the first such category gains
        the points at the key's designated offsets, counted back from the
        point after the window. */
    method RecordMatch(point: int, have: seq<char>, dirX: int, dirY: int, moveSet: seq<set<int>>,
                       tables: seq<Table>, color: int, ghost start: int, ghost step: int)
      returns (moveSet': seq<set<int>>)
      requires |moveSet| == 4 && |tables| == 4 && step == dirX + dirY * NS
      requires InRange(Cells(), start, step, |have|)
      requires have == Window(Cells(), start, step, color, |have|)
      requires point == Pos(start, step, |have|)
      ensures |moveSet'| == 4
      ensures forall j :: 0 <= j < 4 ==>
                moveSet'[j] == moveSet[j] + Here(Cells(), start, step, color, tables, j, |have|)
    {
      ghost var n := |have|;
      var i := 0;
      while i < 4 && have !in tables[i]
        invariant 0 <= i <= 4
        invariant forall j :: 0 <= j < i ==> have !in tables[j]
      {
        i := i + 1;
      }
      assert i == Category(tables, have, 0);
      moveSet' := moveSet;
      if i < 4 {
        var found := set dis | dis in tables[i][have] :: point - dirX * (dis + 1) - dirY * NS * (dis + 1);
        RecordedPoints(Cells(), start, step, color, tables, i, n, point, dirX, dirY, NS);
        moveSet' := moveSet'[i := moveSet'[i] + found];
      }
    }

    /** check_pattern (the window walker): have holds the characters of the
        first n points of the window from start along the step
        dir_x + dir_y * NS, and point is the next point. Each category's
        set gains the points that the windows of n to 9 characters record
        for it. */
    method CheckPattern(point: int, have: seq<char>, dirX: int, dirY: int, moveSet: seq<set<int>>,
                        tables: seq<Table>, color: int, ghost start: int, ghost step: int)
      returns (moveSet': seq<set<int>>)
      requires Valid() && |moveSet| == 4 && |tables| == 4 && |have| <= 9 && step == dirX + dirY * NS
      requires InRange(Cells(), start, step, |have|)
      requires have == Window(Cells(), start, step, color, |have|)
      requires point == Pos(start, step, |have|)
      ensures |moveSet'| == 4
      ensures forall i :: 0 <= i < 4 ==>
                moveSet'[i] == moveSet[i] + Found(Cells(), start, step, color, tables, i, |have|)
      decreases 9 - |have|
    {
      ghost var n := |have|;
      moveSet' := RecordMatch(point, have, dirX, dirY, moveSet, tables, color, start, step);
      if !(0 <= point < board.Length) || |have| == 9 {
        FoundLastAll(start, step, color, tables, moveSet, moveSet', n);
        return;
      }
      var piece: char;
      if board[point] == EMPTY {
        piece := '.';
      } else if board[point] == color {
        piece := 'x';
      } else if board[point] == BORDER {
        piece := 'B';
      } else {
        piece := 'o';
      }
      assert piece == Piece(board[point], color);
      WindowNext(Cells(), start, step, color, n, point, dirX, dirY, NS);
      moveSet' := CheckPattern(point + dirX + dirY * NS, have + [piece], dirX, dirY, moveSet', tables, color, start, step);
      forall j | 0 <= j < 4
        ensures moveSet'[j] == moveSet[j] + Found(Cells(), start, step, color, tables, j, n)
      {
        FoundStep(Cells(), start, step, color, tables, j, n);
      }
    }

    lemma FoundLastAll(start: int, step: int, color: int, tables: seq<Table>, moveSet: seq<set<int>>, moveSet': seq<set<int>>, n: nat)
      requires Valid() && |moveSet| == 4 && |moveSet'| == 4 && n <= 9
      requires n == 9 || !(0 <= Pos(start, step, n) < board.Length)
      requires forall j :: 0 <= j < 4 ==> moveSet'[j] == moveSet[j] + Here(Cells(), start, step, color, tables, j, n)
      ensures forall j :: 0 <= j < 4 ==> moveSet'[j] == moveSet[j] + Found(Cells(), start, step, color, tables, j, n)
    {
      forall j | 0 <= j < 4
        ensures moveSet'[j] == moveSet[j] + Found(Cells(), start, step, color, tables, j, n)
      {
        FoundLast(Cells(), start, step, color, tables, j, n);
      }
    }

    /** The loop shared by get_pattern_moves and list_solve_point: walk the
        windows from every start point in the four directions and collect
        the recorded points of each category. */
    method ScanPatterns(starts: seq<int>, tables: seq<Table>, color: int) returns (moveSet: seq<set<int>>)
      requires Valid() && |tables| == 4
      ensures |moveSet| == 4
      ensures forall i :: 0 <= i < 4 ==> moveSet[i] == Scanned(Cells(), NS, starts, color, tables, i, |starts|)
    {
      var directionX := [1, 0, 1, -1];
      var directionY := [0, 1, 1, 1];
      moveSet := [{}, {}, {}, {}];
      for k := 0 to |starts|
        invariant |moveSet| == 4
        invariant forall i :: 0 <= i < 4 ==> moveSet[i] == Scanned(Cells(), NS, starts, color, tables, i, k)
      {
        var point := starts[k];
        ghost var atStart := moveSet;
        for direction := 0 to 4
          invariant |moveSet| == 4
          invariant forall i :: 0 <= i < 4 ==> moveSet[i] == atStart[i] + FoundDirs(Cells(), NS, point, color, tables, i, direction)
        {
          assert directionX[direction] + directionY[direction] * NS == Step(NS, direction);
          moveSet := CheckPattern(point, "", directionX[direction], directionY[direction], moveSet, tables, color, point, Step(NS, direction));
          forall i | 0 <= i < 4
            ensures moveSet[i] == atStart[i] + FoundDirs(Cells(), NS, point, color, tables, i, direction + 1)
          {
            FoundDirsStep(Cells(), NS, point, color, tables, i, direction);
          }
        }
        forall i | 0 <= i < 4
          ensures moveSet[i] == Scanned(Cells(), NS, starts, color, tables, i, k + 1)
        {
          ScannedStep(Cells(), NS, starts, color, tables, i, k);
        }
      }
    }

    /** The loop that ends get_pattern_moves and list_solve_point: the index
        of the first non-empty set, 4 when all four are empty. */
    static method FirstCategory(moveSet: seq<set<int>>) returns (i: int)
      requires |moveSet| == 4
      ensures i == FirstNonEmpty(moveSet)
    {
      i := 0;
      while i < 4 && moveSet[i] == {}
        invariant 0 <= i <= 4
        invariant forall j :: 0 <= j < i ==> moveSet[j] == {}
      {
        i := i + 1;
      }
      FirstNonEmptyIs(moveSet, i);
    }

    /** The points get_pattern_moves starts its windows from: every index of
        the cell array. */
    function AllPoints(): (r: seq<int>)
      reads this
      requires 0 <= maxpoint
      ensures |r| == maxpoint && forall k :: 0 <= k < maxpoint ==> r[k] == k
    {
      seq(maxpoint, k => k)
    }

    /** The points recorded for category i by get_pattern_moves. */
    ghost function PatternPoints(i: int): set<int>
      reads this, board
      requires 0 <= maxpoint
    {
      Scanned(Cells(), NS, AllPoints(), currentPlayer, MoveTables(), i, maxpoint)
    }

    /** The four sets of get_pattern_moves, one per category. */
    ghost function PatternSets(): (r: seq<set<int>>)
      reads this, board
      requires 0 <= maxpoint
      ensures |r| == 4 && forall i :: 0 <= i < 4 ==> r[i] == PatternPoints(i)
    {
      [PatternPoints(0), PatternPoints(1), PatternPoints(2), PatternPoints(3)]
    }

    /** get_pattern_moves: the first category (0 win, 1 block a win, 2 make
        four, 3 block an open four) for which some window records a point,
        with all the points recorded for it; (4, None) when no window
        matches. Every reported point is EMPTY. */
    method GetPatternMoves() returns (category: int, moves: Option<set<int>>)
      requires Valid()
      ensures category == FirstNonEmpty(PatternSets())
      ensures 0 <= category <= 4
      ensures forall j :: 0 <= j < category ==> PatternPoints(j) == {}
      ensures category == 4 <==> moves == None
      ensures category < 4 ==> moves == Some(PatternPoints(category)) && PatternPoints(category) != {}
      ensures moves.Some? ==> forall p :: p in moves.value ==> 0 <= p < maxpoint && board[p] == EMPTY
    {
      var moveSet := ScanPatterns(AllPoints(), MoveTables(), currentPlayer);
      assert moveSet == PatternSets();
      var i := FirstCategory(moveSet);
      if i == 4 {
        return i, None;
      }
      MoveTablesWellFormed();
      forall p | p in moveSet[i] ensures 0 <= p < maxpoint && board[p] == EMPTY {
        ScannedIsEmpty(Cells(), NS, AllPoints(), currentPlayer, MoveTables(), i, maxpoint, p);
      }
      return i, Some(moveSet[i]);
    }

    /** The points list_solve_point starts its windows from: the points
        that are not BORDER. */
    function NonBorderPoints(): (r: seq<int>)
      reads this, board
    {
      Where1d(seq(board.Length, q requires 0 <= q < board.Length reads this, board => board[q] != BORDER))
    }

    /** The points recorded for category i by list_solve_point. */
    ghost function SolvePoints(i: int): set<int>
      reads this, board
    {
      Scanned(Cells(), NS, NonBorderPoints(), currentPlayer, SolveTables(), i, |NonBorderPoints()|)
    }

    /** The four sets of list_solve_point, one per category. */
    ghost function SolveSets(): (r: seq<set<int>>)
      reads this, board
      ensures |r| == 4 && forall i :: 0 <= i < 4 ==> r[i] == SolvePoints(i)
    {
      [SolvePoints(0), SolvePoints(1), SolvePoints(2), SolvePoints(3)]
    }

    /** list_solve_point: the points of the first category that records one,
        with the smaller block-open-four table and windows starting on the
        board only; None when no window matches. Every reported point is
        EMPTY. */
    method ListSolvePoint() returns (moves: Option<set<int>>)
      requires Valid()
      ensures FirstNonEmpty(SolveSets()) == 4 <==> moves == None
      ensures moves.Some? ==> moves.value == SolveSets()[FirstNonEmpty(SolveSets())] && moves.value != {}
      ensures moves.Some? ==> forall p :: p in moves.value ==> 0 <= p < maxpoint && board[p] == EMPTY
    {
      var starts := NonBorderPoints();
      var moveSet := ScanPatterns(starts, SolveTables(), currentPlayer);
      assert moveSet == SolveSets();
      var i := FirstCategory(moveSet);
      if i == 4 {
        return None;
      }
      SolveTablesWellFormed();
      forall p | p in moveSet[i] ensures 0 <= p < maxpoint && board[p] == EMPTY {
        ScannedIsEmpty(Cells(), NS, starts, currentPlayer, SolveTables(), i, |starts|, p);
      }
      return Some(moveSet[i]);
    }
  }
}
