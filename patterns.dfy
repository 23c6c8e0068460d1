// The tactical pattern scanner: a window walks from a start point in one of
// four directions, reading each cell as '.', 'x' (the player's stone), 'o'
// (an opponent stone) or 'B' (border); when the characters read so far form
// a key of a category's table, the points the key designates are recorded
// for that category.
module Patterns {
  import opened BoardUtil

  type Table = map<seq<char>, set<int>>

  /** The character check_pattern reads for a cell holding v, as seen by
      the player color. */
  function Piece(v: int, color: int): (ch: char)
    ensures ch == '.' <==> v == EMPTY
  {
    if v == EMPTY then '.'
    else if v == color then 'x'
    else if v == BORDER then 'B'
    else 'o'
  }

  /** Category 0 of both scans: the player completes five. */
  function WinTable(): Table {
    map["xxxx." := {0}, "xxx.x" := {1}, "xx.xx" := {2}, "x.xxx" := {3}, ".xxxx" := {4}]
  }

  /** Category 1 of both scans: the opponent would complete five. */
  function BlockWinTable(): Table {
    map["oooo." := {0}, "ooo.o" := {1}, "oo.oo" := {2}, "o.ooo" := {3}, ".oooo" := {4}]
  }

  /** Category 2 of both scans: the player makes an open four. */
  function MakeFourTable(): Table {
    map[".xxx.." := {1}, "..xxx." := {4}, ".xx.x." := {2}, ".x.xx." := {3}]
  }

  /** Category 3 of get_pattern_moves: block the opponent's open four,
      including the shapes anchored on a border or one of the player's
      stones. */
  function BlockOpenFourTable(): Table {
    map[".ooo.." := {1, 5}, "..ooo." := {0, 4}, ".oo.o." := {0, 2, 5}, ".o.oo." := {0, 3, 5},
        "B.ooo.." := {0}, "..ooo.B" := {6}, "x.ooo.." := {0}, "..ooo.x" := {6}]
  }

  /** Category 3 of list_solve_point: the smaller block-open-four table. */
  function SolveBlockOpenFourTable(): Table {
    map[".ooo.." := {1, 5}, "..ooo." := {0, 4}, ".oo.o." := {2}, ".o.oo." := {3}]
  }

  /** The categories of get_pattern_moves: 0 win, 1 block a win, 2 make
      four, 3 block an open four. The set of a key holds the offsets, counted
      back from the key's last character, of the points to record. */
  function MoveTables(): (r: seq<Table>)
    ensures |r| == 4
  {
    [WinTable(), BlockWinTable(), MakeFourTable(), BlockOpenFourTable()]
  }

  /** The categories of list_solve_point: the same first three tables and a
      smaller block-open-four table. */
  function SolveTables(): (r: seq<Table>)
    ensures |r| == 4
  {
    [WinTable(), BlockWinTable(), MakeFourTable(), SolveBlockOpenFourTable()]
  }

  /** The first category whose table has key s, or |tables| for none: the
      for/break of check_pattern. */
  function Category(tables: seq<Table>, s: seq<char>, from: nat): (i: nat)
    requires from <= |tables|
    ensures from <= i <= |tables|
    ensures i < |tables| ==> s in tables[i]
    ensures forall j :: from <= j < i ==> s !in tables[j]
    decreases |tables| - from
  {
    if from == |tables| then from
    else if s in tables[from] then from
    else Category(tables, s, from + 1)
  }

  /** Every offset of every key names a '.' of that key. */
  predicate DesignatesEmpty(t: Table) {
    forall key, dis :: key in t && dis in t[key] ==> 0 <= dis < |key| && key[|key| - 1 - dis] == '.'
  }

  /** Every key contains a stone, 'x' or 'o'. */
  predicate KeysHoldStones(t: Table) {
    forall key :: key in t ==> 'x' in key || 'o' in key
  }

  predicate WellFormed(tables: seq<Table>) {
    forall i :: 0 <= i < |tables| ==> DesignatesEmpty(tables[i]) && KeysHoldStones(tables[i])
  }

  lemma WinTableWellFormed()
    ensures DesignatesEmpty(WinTable()) && KeysHoldStones(WinTable())
  {
    var t := WinTable();
    forall key, dis | key in t && dis in t[key] ensures 0 <= dis < |key| && key[|key| - 1 - dis] == '.' {
      if key == "xxxx." {} else if key == "xxx.x" {} else if key == "xx.xx" {}
      else if key == "x.xxx" {} else { assert key == ".xxxx"; }
    }
    forall key | key in t ensures 'x' in key || 'o' in key {
      assert key[1] == 'x' || key[2] == 'x';
    }
  }

  lemma BlockWinTableWellFormed()
    ensures DesignatesEmpty(BlockWinTable()) && KeysHoldStones(BlockWinTable())
  {
    var t := BlockWinTable();
    forall key, dis | key in t && dis in t[key] ensures 0 <= dis < |key| && key[|key| - 1 - dis] == '.' {
      if key == "oooo." {} else if key == "ooo.o" {} else if key == "oo.oo" {}
      else if key == "o.ooo" {} else { assert key == ".oooo"; }
    }
    forall key | key in t ensures 'x' in key || 'o' in key {
      assert key[1] == 'o' || key[2] == 'o';
    }
  }

  lemma MakeFourTableWellFormed()
    ensures DesignatesEmpty(MakeFourTable()) && KeysHoldStones(MakeFourTable())
  {
    var t := MakeFourTable();
    forall key, dis | key in t && dis in t[key] ensures 0 <= dis < |key| && key[|key| - 1 - dis] == '.' {
      if key == ".xxx.." {} else if key == "..xxx." {} else if key == ".xx.x." {}
      else { assert key == ".x.xx."; }
    }
    forall key | key in t ensures 'x' in key || 'o' in key {
      assert key[2] == 'x' || key[3] == 'x';
    }
  }

  lemma BlockOpenFourTableWellFormed()
    ensures DesignatesEmpty(BlockOpenFourTable()) && KeysHoldStones(BlockOpenFourTable())
  {
    var t := BlockOpenFourTable();
    forall key, dis | key in t && dis in t[key] ensures 0 <= dis < |key| && key[|key| - 1 - dis] == '.' {
      if key == ".ooo.." { assert dis == 1 || dis == 5; }
      else if key == "..ooo." { assert dis == 0 || dis == 4; }
      else if key == ".oo.o." {} else if key == ".o.oo." {}
      else if key == "B.ooo.." {} else if key == "..ooo.B" {}
      else if key == "x.ooo.." {} else { assert key == "..ooo.x"; }
    }
    forall key | key in t ensures 'x' in key || 'o' in key {
      assert key[2] == 'o' || key[3] == 'o';
    }
  }

  lemma SolveBlockOpenFourTableWellFormed()
    ensures DesignatesEmpty(SolveBlockOpenFourTable()) && KeysHoldStones(SolveBlockOpenFourTable())
  {
    var t := SolveBlockOpenFourTable();
    forall key, dis | key in t && dis in t[key] ensures 0 <= dis < |key| && key[|key| - 1 - dis] == '.' {
      if key == ".ooo.." { assert dis == 1 || dis == 5; }
      else if key == "..ooo." { assert dis == 0 || dis == 4; }
      else if key == ".oo.o." {} else { assert key == ".o.oo."; }
    }
    forall key | key in t ensures 'x' in key || 'o' in key {
      assert key[2] == 'o' || key[3] == 'o';
    }
  }

  /** Every offset of both scans' tables designates an empty cell of its key. */
  lemma MoveTablesWellFormed()
    ensures WellFormed(MoveTables())
  {
    WinTableWellFormed();
    BlockWinTableWellFormed();
    MakeFourTableWellFormed();
    BlockOpenFourTableWellFormed();
  }

  lemma SolveTablesWellFormed()
    ensures WellFormed(SolveTables())
  {
    WinTableWellFormed();
    BlockWinTableWellFormed();
    MakeFourTableWellFormed();
    SolveBlockOpenFourTableWellFormed();
  }

  /** The k-th point of the window from start along step. */
  function Pos(start: int, step: int, k: int): int {
    start + k * step
  }

  lemma PosNext(start: int, step: int, k: int)
    ensures Pos(start, step, k + 1) == Pos(start, step, k) + step
  {
  }

  /** The point check_pattern records for offset dis when the window holds
      n characters and the walk stands on the next point. */
  lemma PosBack(start: int, step: int, n: int, dis: int)
    ensures Pos(start, step, n) - step * (dis + 1) == Pos(start, step, n - 1 - dis)
  {
  }

  /** The first n points of the window are cells. */
  ghost predicate InRange(cells: seq<int>, start: int, step: int, n: int) {
    forall k :: 0 <= k < n ==> 0 <= Pos(start, step, k) < |cells|
  }

  /** The characters of the first n points of the window. */
  ghost function Window(cells: seq<int>, start: int, step: int, color: int, n: nat): (w: seq<char>)
    requires InRange(cells, start, step, n)
    ensures |w| == n
    decreases n
  {
    if n == 0 then []
    else Window(cells, start, step, color, n - 1) + [Piece(cells[Pos(start, step, n - 1)], color)]
  }

  lemma {:induction false} WindowIndex(cells: seq<int>, start: int, step: int, color: int, n: nat, k: int)
    requires InRange(cells, start, step, n) && 0 <= k < n
    ensures Window(cells, start, step, color, n)[k] == Piece(cells[Pos(start, step, k)], color)
    decreases n
  {
    if k < n - 1 {
      WindowIndex(cells, start, step, color, n - 1, k);
    }
  }

  /** The points recorded for category i when the window holds its first n
      characters: the designated offsets of the key the window spells, when
      i is the first category having that key. */
  ghost function Here(cells: seq<int>, start: int, step: int, color: int, tables: seq<Table>, i: int, n: nat): set<int> {
    if InRange(cells, start, step, n) && 0 <= i < |tables| && Category(tables, Window(cells, start, step, color, n), 0) == i
    then set dis | dis in tables[i][Window(cells, start, step, color, n)] :: Pos(start, step, n - 1 - dis)
    else {}
  }

  /** The points recorded for category i by the windows of from to 9
      characters starting at start. */
  ghost function Found(cells: seq<int>, start: int, step: int, color: int, tables: seq<Table>, i: int, from: nat): set<int> {
    set n, p | from <= n <= 9 && p in Here(cells, start, step, color, tables, i, n) :: p
  }

  /** The window of n + 1 characters exists only when that of n does. */
  lemma InRangeMono(cells: seq<int>, start: int, step: int, n: int, m: int)
    requires n <= m && InRange(cells, start, step, m)
    ensures InRange(cells, start, step, n)
  {
  }

  /** Found splits into its first window and the rest. */
  lemma FoundStep(cells: seq<int>, start: int, step: int, color: int, tables: seq<Table>, i: int, n: nat)
    requires n < 9
    ensures Found(cells, start, step, color, tables, i, n) ==
      Here(cells, start, step, color, tables, i, n) + Found(cells, start, step, color, tables, i, n + 1)
  {
    var here := Here(cells, start, step, color, tables, i, n);
    var rest := Found(cells, start, step, color, tables, i, n + 1);
    forall p | p in here ensures p in Found(cells, start, step, color, tables, i, n) {
    }
  }

  /** Once the window leaves the cells, no longer window records anything. */
  lemma FoundLast(cells: seq<int>, start: int, step: int, color: int, tables: seq<Table>, i: int, n: nat)
    requires n <= 9 && (n == 9 || !InRange(cells, start, step, n + 1))
    ensures Found(cells, start, step, color, tables, i, n) == Here(cells, start, step, color, tables, i, n)
  {
    forall m | n < m <= 9
      ensures Here(cells, start, step, color, tables, i, m) == {}
    {
      if InRange(cells, start, step, m) {
        InRangeMono(cells, start, step, n + 1, m);
      }
    }
    var here := Here(cells, start, step, color, tables, i, n);
    forall p | p in here ensures p in Found(cells, start, step, color, tables, i, n) {
    }
  }

  /** The window steps of get_pattern_moves: right, down, down-right and
      down-left, as direction_x + direction_y * NS. */
  function DirX(dir: int): int {
    if dir == 3 then -1 else if dir == 1 then 0 else 1
  }

  function DirY(dir: int): int {
    if dir == 0 then 0 else 1
  }

  function Step(ns: int, dir: int): int {
    DirX(dir) + DirY(dir) * ns
  }

  /** The points recorded for category i by the windows from q in the first
      nd directions. */
  ghost function FoundDirs(cells: seq<int>, ns: int, q: int, color: int, tables: seq<Table>, i: int, nd: int): set<int> {
    set dir, p | 0 <= dir < nd && dir < 4 && p in Found(cells, q, Step(ns, dir), color, tables, i, 0) :: p
  }

  /** The points recorded for category i by the windows from the first n
      start points, in all four directions. */
  ghost function Scanned(cells: seq<int>, ns: int, starts: seq<int>, color: int, tables: seq<Table>, i: int, n: int): set<int>
    requires n <= |starts|
  {
    set k, p | 0 <= k < n && p in FoundDirs(cells, ns, starts[k], color, tables, i, 4) :: p
  }

  lemma FoundDirsStep(cells: seq<int>, ns: int, q: int, color: int, tables: seq<Table>, i: int, nd: int)
    requires 0 <= nd < 4
    ensures FoundDirs(cells, ns, q, color, tables, i, nd + 1) ==
      FoundDirs(cells, ns, q, color, tables, i, nd) + Found(cells, q, Step(ns, nd), color, tables, i, 0)
  {
    var added := Found(cells, q, Step(ns, nd), color, tables, i, 0);
    forall p | p in added ensures p in FoundDirs(cells, ns, q, color, tables, i, nd + 1) {
    }
  }

  lemma ScannedStep(cells: seq<int>, ns: int, starts: seq<int>, color: int, tables: seq<Table>, i: int, n: int)
    requires 0 <= n < |starts|
    ensures Scanned(cells, ns, starts, color, tables, i, n + 1) ==
      Scanned(cells, ns, starts, color, tables, i, n) + FoundDirs(cells, ns, starts[n], color, tables, i, 4)
  {
    var added := FoundDirs(cells, ns, starts[n], color, tables, i, 4);
    forall p | p in added ensures p in Scanned(cells, ns, starts, color, tables, i, n + 1) {
    }
  }

  /** A point recorded for category i by the windows from start along step
      is the point at a designated offset of a key that the whole window
      spells, so it is an EMPTY cell. */
  lemma FoundIsEmpty(cells: seq<int>, start: int, step: int, color: int, tables: seq<Table>, i: int, from: nat, p: int)
    requires WellFormed(tables) && p in Found(cells, start, step, color, tables, i, from)
    ensures 0 <= p < |cells| && cells[p] == EMPTY
  {
    var n :| from <= n <= 9 && p in Here(cells, start, step, color, tables, i, n);
    var w := Window(cells, start, step, color, n);
    var dis :| dis in tables[i][w] && p == Pos(start, step, n - 1 - dis);
    assert DesignatesEmpty(tables[i]);
    WindowIndex(cells, start, step, color, n, n - 1 - dis);
  }

  /** The same for every point the whole scan records. */
  lemma ScannedIsEmpty(cells: seq<int>, ns: int, starts: seq<int>, color: int, tables: seq<Table>, i: int, n: int, p: int)
    requires WellFormed(tables) && n <= |starts| && p in Scanned(cells, ns, starts, color, tables, i, n)
    ensures 0 <= p < |cells| && cells[p] == EMPTY
  {
    var k :| 0 <= k < n && p in FoundDirs(cells, ns, starts[k], color, tables, i, 4);
    var dir :| 0 <= dir < 4 && p in Found(cells, starts[k], Step(ns, dir), color, tables, i, 0);
    FoundIsEmpty(cells, starts[k], Step(ns, dir), color, tables, i, 0, p);
  }

  /** The category get_pattern_moves reports: the first of the four sets
      that is not empty, or 4 when all are. */
  function FirstNonEmpty(sets: seq<set<int>>): (i: nat)
    ensures i <= |sets|
    ensures forall j :: 0 <= j < i ==> sets[j] == {}
    ensures i < |sets| ==> sets[i] != {}
  {
    if sets == [] then 0
    else if sets[0] != {} then 0
    else 1 + FirstNonEmpty(sets[1..])
  }

  /** The first i sets are empty and the i-th (if any) is not: i is the
      first non-empty one. */
  lemma {:induction false} FirstNonEmptyIs(sets: seq<set<int>>, i: int)
    requires 0 <= i <= |sets| && (forall j :: 0 <= j < i ==> sets[j] == {}) && (i < |sets| ==> sets[i] != {})
    ensures FirstNonEmpty(sets) == i
  {
    if sets != [] && i > 0 {
      assert sets[0] == {};
      FirstNonEmptyIs(sets[1..], i - 1);
    }
  }

  /** A cell that is EMPTY or BORDER reads as '.' or 'B' whichever the
      player, so a window over such cells spells no key. */
  lemma {:induction false} NoStonesNoMatchHere(cells: seq<int>, start: int, step: int, color: int, tables: seq<Table>, i: int, n: nat)
    requires WellFormed(tables) && IsBlackWhite(color)
    requires forall q :: 0 <= q < |cells| ==> cells[q] == EMPTY || cells[q] == BORDER
    ensures Here(cells, start, step, color, tables, i, n) == {}
  {
    if InRange(cells, start, step, n) && 0 <= i < |tables| {
      var w := Window(cells, start, step, color, n);
      if w in tables[i] {
        assert KeysHoldStones(tables[i]);
        var j :| 0 <= j < |w| && (w[j] == 'x' || w[j] == 'o');
        WindowIndex(cells, start, step, color, n, j);
        assert false;
      }
    }
  }

  /** On a board without stones no window records any point. */
  lemma NoStonesNoMatch(cells: seq<int>, ns: int, starts: seq<int>, color: int, tables: seq<Table>, i: int, n: int)
    requires WellFormed(tables) && IsBlackWhite(color) && 0 <= n <= |starts|
    requires forall q :: 0 <= q < |cells| ==> cells[q] == EMPTY || cells[q] == BORDER
    ensures Scanned(cells, ns, starts, color, tables, i, n) == {}
  {
    forall k, dir, m | 0 <= k < n && 0 <= dir < 4 && 0 <= m <= 9
      ensures Here(cells, starts[k], Step(ns, dir), color, tables, i, m) == {}
    {
      NoStonesNoMatchHere(cells, starts[k], Step(ns, dir), color, tables, i, m);
    }
  }
}
