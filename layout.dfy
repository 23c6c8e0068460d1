// The flat board layout of SimpleGoBoard: a point is row * NS + col with
// NS = size + 1, so one border column is shared by the right edge of a row
// and the left edge of the next, and maxpoint leaves a full border row
// above and below the board.
module Layout {

  /** Row stride: the source's self.NS. */
  function NS(size: int): int {
    size + 1
  }

  /** Number of cells of the flat array: the source's self.maxpoint. */
  function MaxPoint(size: int): int {
    size * size + 3 * (size + 1)
  }

  /** coord_to_point: row * NS + col. */
  function CoordToPoint(size: int, row: int, col: int): int {
    row * NS(size) + col
  }

  /** True of the points that are on the board, as opposed to the border. */
  predicate OnBoard(size: int, p: int) {
    size >= 1 && 1 <= p / NS(size) <= size && p % NS(size) != 0
  }

  lemma MulAtLeast(k: int, n: int)
    requires k >= 1 && n > 0
    ensures k * n >= n
  {
  }

  lemma DivModUnique(p: int, n: int, q: int, r: int)
    requires n > 0 && p == q * n + r && 0 <= r < n
    ensures p / n == q && p % n == r
  {
    var d, m := p / n, p % n;
    assert (q - d) * n == m - r;
    if q > d {
      MulAtLeast(q - d, n);
    } else if q < d {
      MulAtLeast(d - q, n);
    }
  }

  /** A point is on the board exactly when it is row * NS + col with
      1 <= row, col <= size; its row and column are recovered by divmod. */
  lemma {:induction false} CoordToPointOnBoard(size: int, row: int, col: int)
    requires 1 <= row <= size && 1 <= col <= size
    ensures OnBoard(size, CoordToPoint(size, row, col))
    ensures CoordToPoint(size, row, col) / NS(size) == row
    ensures CoordToPoint(size, row, col) % NS(size) == col
  {
    DivModUnique(CoordToPoint(size, row, col), NS(size), row, col);
  }

  lemma {:induction false} OnBoardIsCoord(size: int, p: int)
    requires OnBoard(size, p)
    ensures p == CoordToPoint(size, p / NS(size), p % NS(size))
    ensures 1 <= p / NS(size) <= size && 1 <= p % NS(size) <= size
  {
  }

  /** Every on-board point is at least one border row and one border cell
      away from both ends of the array, so p +- 1, p +- NS and p +- NS +- 1
      are all valid indices. */
  lemma {:induction false} OnBoardBounds(size: int, p: int)
    requires OnBoard(size, p)
    ensures NS(size) + 1 <= p
    ensures p + NS(size) + 1 < MaxPoint(size)
  {
    var row, col := p / NS(size), p % NS(size);
    OnBoardIsCoord(size, p);
    MulAtLeast(row, NS(size));
    assert row * NS(size) <= size * NS(size) by {
      if row < size {
        MulAtLeast(size - row, NS(size));
        assert size * NS(size) - row * NS(size) == (size - row) * NS(size);
      }
    }
  }

  /** The last column of a row is followed by a border cell, and the first
      column of a row is preceded by one: the shared border column. */
  lemma {:induction false} SharedBorderColumn(size: int, p: int)
    requires OnBoard(size, p)
    ensures p % NS(size) == size ==> !OnBoard(size, p + 1)
    ensures p % NS(size) == 1 ==> !OnBoard(size, p - 1)
  {
    var row, col := p / NS(size), p % NS(size);
    OnBoardIsCoord(size, p);
    if col == size {
      DivModUnique(p + 1, NS(size), row + 1, 0);
    }
    if col == 1 {
      DivModUnique(p - 1, NS(size), row, 0);
    }
  }

  /** _neighbors: the four orthogonal neighbours. */
  function Neighbors4(size: int, p: int): (r: seq<int>)
    ensures |r| == 4
    ensures OnBoard(size, p) ==> forall k :: 0 <= k < 4 ==> 0 <= r[k] < MaxPoint(size)
  {
    assert OnBoard(size, p) ==> NS(size) + 1 <= p && p + NS(size) + 1 < MaxPoint(size) by {
      if OnBoard(size, p) { OnBoardBounds(size, p); }
    }
    [p - 1, p + 1, p - NS(size), p + NS(size)]
  }

  /** _diag_neighbors: the four diagonal neighbours. */
  function DiagNeighbors(size: int, p: int): (r: seq<int>)
    ensures |r| == 4
    ensures OnBoard(size, p) ==> forall k :: 0 <= k < 4 ==> 0 <= r[k] < MaxPoint(size)
  {
    assert OnBoard(size, p) ==> NS(size) + 1 <= p && p + NS(size) + 1 < MaxPoint(size) by {
      if OnBoard(size, p) { OnBoardBounds(size, p); }
    }
    [p - NS(size) - 1, p - NS(size) + 1, p + NS(size) - 1, p + NS(size) + 1]
  }

  /** The on-board members of a list of points, in order. */
  function KeepOnBoard(size: int, ps: seq<int>): (r: seq<int>)
    ensures forall x :: x in r <==> x in ps && OnBoard(size, x)
  {
    if ps == [] then []
    else KeepOnBoard(size, ps[..|ps| - 1]) + (if OnBoard(size, ps[|ps| - 1]) then [ps[|ps| - 1]] else [])
  }

  /** The precomputed self.neighbors[p]: the on-board orthogonal neighbours
      of an on-board point, and nothing for a border point. */
  function NbrList(size: int, p: int): seq<int> {
    if OnBoard(size, p) then KeepOnBoard(size, Neighbors4(size, p)) else []
  }

  predicate Adjacent(size: int, p: int, x: int) {
    x == p - 1 || x == p + 1 || x == p - NS(size) || x == p + NS(size)
  }

  lemma NbrListMembership(size: int, p: int, x: int)
    ensures x in NbrList(size, p) <==> OnBoard(size, p) && OnBoard(size, x) && Adjacent(size, p, x)
  {
  }

  /** Neighbourhood is symmetric. */
  lemma NbrSymmetric(size: int, p: int, x: int)
    requires x in NbrList(size, p)
    ensures p in NbrList(size, x)
  {
    NbrListMembership(size, p, x);
    NbrListMembership(size, x, p);
  }

  lemma NbrInRange(size: int, p: int, x: int)
    requires x in NbrList(size, p)
    ensures 0 <= x < MaxPoint(size) && OnBoard(size, x)
  {
    NbrListMembership(size, p, x);
    OnBoardBounds(size, p);
  }

  predicate Distinct(s: seq<int>) {
    forall i, j :: 0 <= i < j < |s| ==> s[i] != s[j]
  }

  lemma {:induction false} KeepOnBoardDistinct(size: int, ps: seq<int>)
    requires Distinct(ps)
    ensures Distinct(KeepOnBoard(size, ps))
    decreases |ps|
  {
    if ps != [] {
      var init := ps[..|ps| - 1];
      assert Distinct(init);
      KeepOnBoardDistinct(size, init);
      assert ps[|ps| - 1] !in init;
    }
  }

  /** No point is listed twice among the neighbours of a point. */
  lemma NbrListDistinct(size: int, p: int)
    ensures Distinct(NbrList(size, p))
  {
    if OnBoard(size, p) {
      KeepOnBoardDistinct(size, Neighbors4(size, p));
    }
  }
}
