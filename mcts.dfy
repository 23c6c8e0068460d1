// The statistics side of the Monte Carlo tree search player: the turn
// rotation, expansion and back-propagation over the plays/wins tables, the
// move choice, the rational argmax of select_one_move, and the two grid
// helpers adjacent_moves and has_a_winner over an abstract width x height
// board whose occupied cells are a map from cell to player.
module Mcts {
  import opened BoardUtil
  import Layout

  /** A statistics key: (player, move). */
  type Key = (int, int)

  // ---------------------------------------------------------------------
  // Turn rotation (get_player)
  // ---------------------------------------------------------------------

  /** players after pop(0) and append: the head moves to the back. */
  function Rotated(players: seq<int>): (r: seq<int>)
    requires |players| > 0
    ensures |r| == |players|
    ensures r[|r| - 1] == players[0] && forall k :: 0 <= k < |r| - 1 ==> r[k] == players[k + 1]
  {
    players[1..] + [players[0]]
  }

  /** Rotating keeps the players, each as often as before. */
  lemma RotatedPermutes(players: seq<int>)
    requires |players| > 0
    ensures multiset(Rotated(players)) == multiset(players)
  {
    assert players == [players[0]] + players[1..];
  }

  /** The list after n calls of get_player. */
  function RotatedN(players: seq<int>, n: nat): (r: seq<int>)
    requires |players| > 0
    ensures |r| == |players|
  {
    if n == 0 then players else Rotated(RotatedN(players, n - 1))
  }

  /** Rotating the list cut at j gives the list cut at j + 1. */
  lemma RotatedCut(players: seq<int>, j: int)
    requires 0 <= j < |players|
    ensures Rotated(players[j..] + players[..j]) ==
              if j + 1 == |players| then players else players[j + 1..] + players[..j + 1]
  {
    var s := players[j..] + players[..j];
    assert s[0] == players[j];
    assert s[1..] == players[j + 1..] + players[..j];
    assert players[..j + 1] == players[..j] + [players[j]];
    if j + 1 == |players| {
      assert players[j + 1..] == [];
      assert players[..j + 1] == players;
    }
  }

  /** Counting one more turn moves the cut one further, round the end. */
  lemma ModNext(n: int, len: int)
    requires n >= 1 && len >= 1
    ensures n % len == if (n - 1) % len + 1 == len then 0 else (n - 1) % len + 1
  {
    var j := (n - 1) % len;
    assert n - 1 == ((n - 1) / len) * len + j;
    if j + 1 == len {
      Layout.DivModUnique(n, len, (n - 1) / len + 1, 0);
    } else {
      Layout.DivModUnique(n, len, (n - 1) / len, j + 1);
    }
  }

  /** After n turns the list is the original one cut at n mod its length. */
  lemma {:induction false} RotatedNIs(players: seq<int>, n: nat)
    requires |players| > 0
    ensures RotatedN(players, n) == players[n % |players|..] + players[..n % |players|]
  {
    var len := |players|;
    if n == 0 {
      assert players[0..] + players[..0] == players;
    } else {
      RotatedNIs(players, n - 1);
      var j := (n - 1) % len;
      var k := n % len;
      assert RotatedN(players, n) == Rotated(players[j..] + players[..j]);
      RotatedCut(players, j);
      ModNext(n, len);
      if j + 1 == len {
        assert k == 0;
        assert players[k..] + players[..k] == players;
      } else {
        assert k == j + 1;
      }
    }
  }

  /** The (n+1)-th call of get_player returns players[n mod len]: the turn
      goes round the list. */
  lemma TurnOrder(players: seq<int>, n: nat)
    requires |players| > 0
    ensures RotatedN(players, n)[0] == players[n % |players|]
  {
    var len := |players|;
    var j := n % len;
    RotatedNIs(players, n);
    assert (players[j..] + players[..j])[0] == players[j];
  }

  /** A full round of get_player calls restores the turn list. */
  lemma FullRound(players: seq<int>)
    requires |players| > 0
    ensures RotatedN(players, |players|) == players
  {
    var len := |players|;
    RotatedNIs(players, len);
    Layout.DivModUnique(len, len, 1, 0);
    assert players[0..] + players[..0] == players;
  }

  /** get_player: the former head of the turn list, which is rotated in
      place by one. */
  method GetPlayer(players: array<int>) returns (p: int)
    requires players.Length > 0
    modifies players
    ensures p == old(players[0]) && players[..] == Rotated(old(players[..]))
  {
    p := players[0];
    forall i | 0 <= i < players.Length - 1 {
      players[i] := players[i + 1];
    }
    players[players.Length - 1] := p;
  }

  // ---------------------------------------------------------------------
  // Statistics tables
  // ---------------------------------------------------------------------

  /** plays.get((player, move)) is truthy: the pair has a non-zero count. */
  predicate HasStats(plays: map<Key, int>, player: int, move: int) {
    (player, move) in plays && plays[(player, move)] != 0
  }

  /** plays and wins have the same keys, and 0 <= wins <= plays. */
  predicate StatsOk(plays: map<Key, int>, wins: map<Key, int>) {
    plays.Keys == wins.Keys && forall k :: k in plays ==> 0 <= wins[k] <= plays[k]
  }

  /** Every pair in the table has been visited at least once. */
  predicate Settled(plays: map<Key, int>) {
    forall k :: k in plays ==> plays[k] >= 1
  }

  /** plays after back-propagation: one more visit for every visited pair
      already in the table. */
  function BumpPlays(plays: map<Key, int>, visited: set<Key>): map<Key, int> {
    map k | k in plays :: if k in visited then plays[k] + 1 else plays[k]
  }

  /** wins after back-propagation: one more win for every visited pair of
      the winner already in the table. */
  function BumpWins(wins: map<Key, int>, visited: set<Key>, winner: int): map<Key, int> {
    map k | k in wins :: if k in visited && k.0 == winner then wins[k] + 1 else wins[k]
  }

  /** Back-propagation keeps the tables' shape and 0 <= wins <= plays, and
      it changes no count by more than one: plays only on visited pairs,
      wins only on visited pairs of the winner. */
  lemma BackPropagationKeepsStats(plays: map<Key, int>, wins: map<Key, int>, visited: set<Key>, winner: int)
    requires StatsOk(plays, wins)
    ensures StatsOk(BumpPlays(plays, visited), BumpWins(wins, visited, winner))
    ensures forall k :: k in plays ==>
      BumpPlays(plays, visited)[k] - plays[k] == (if k in visited then 1 else 0)
    ensures forall k :: k in wins ==>
      BumpWins(wins, visited, winner)[k] - wins[k] == (if k in visited && k.0 == winner then 1 else 0)
  {
    var p, w := BumpPlays(plays, visited), BumpWins(wins, visited, winner);
    assert p.Keys == w.Keys;
    forall k | k in p ensures 0 <= w[k] <= p[k] {
      assert k in plays;
    }
  }

  /** A pair visited in the run that was added to the table at 0 leaves it
      with a count of one, so a table without zero counts keeps none. */
  lemma BackPropagationSettles(plays: map<Key, int>, visited: set<Key>)
    requires forall k :: k in plays ==> plays[k] >= 1 || (plays[k] == 0 && k in visited)
    ensures Settled(BumpPlays(plays, visited))
  {
    var p := BumpPlays(plays, visited);
    forall k | k in p ensures p[k] >= 1 {
      assert k in plays;
    }
  }

  /** Visiting one more pair changes the back-propagated tables at that
      pair only. */
  lemma BumpStep(plays: map<Key, int>, wins: map<Key, int>, done: set<Key>, key: Key, winner: int)
    requires plays.Keys == wins.Keys && key !in done
    ensures key !in plays ==> BumpPlays(plays, done + {key}) == BumpPlays(plays, done)
                              && BumpWins(wins, done + {key}, winner) == BumpWins(wins, done, winner)
    ensures key in plays ==> BumpPlays(plays, done + {key}) == BumpPlays(plays, done)[key := plays[key] + 1]
    ensures key in plays ==> (BumpWins(wins, done + {key}, winner) ==
              if key.0 == winner then BumpWins(wins, done, winner)[key := wins[key] + 1] else BumpWins(wins, done, winner))
  {
  }

  /** The step of a simulation at which the expansion happens: the first
      visited pair that the table does not hold yet, if any. */
  function FirstNew(visits: seq<Key>, known: set<Key>): (r: Option<nat>)
    ensures r.Some? ==> r.value < |visits| && visits[r.value] !in known
                        && forall j :: 0 <= j < r.value ==> visits[j] in known
    ensures r.None? ==> forall j :: 0 <= j < |visits| ==> visits[j] in known
  {
    if visits == [] then None
    else
      var init := visits[..|visits| - 1];
      match FirstNew(init, known)
      case Some(i) => Some(i)
      case None => if visits[|visits| - 1] !in known then Some(|visits| - 1) else None
  }

  /** A table after the expansion: the pair of the expansion step, if
      any, enters it with count 0. */
  function Expanded(table: map<Key, int>, visits: seq<Key>, first: Option<nat>): map<Key, int> {
    if first.Some? && first.value < |visits| then table[visits[first.value] := 0] else table
  }

  /** maxDepth after the expansion: raised to the expansion's step. */
  function DepthAfter(depth: int, first: Option<nat>): int {
    if first.Some? && first.value + 1 > depth then first.value + 1 else depth
  }

  /** The pairs of a simulation, as the set visited_states. */
  function VisitedSet(visits: seq<Key>): set<Key> {
    set k | k in visits
  }

  /** One simulation's expansion followed by its back-propagation keeps
      the tables' shape and 0 <= wins <= plays; the table gains the first
      unknown visited pair, if any, with one visit and one win exactly when
      its player won; every other pair gains one visit when visited and one
      win when visited by the winner; and a table without zero counts keeps
      none. */
  lemma ExpandThenBackPropagate(plays: map<Key, int>, wins: map<Key, int>, visits: seq<Key>, winner: int)
    requires StatsOk(plays, wins)
    ensures var f := FirstNew(visits, plays.Keys);
            var p := BumpPlays(Expanded(plays, visits, f), VisitedSet(visits));
            var w := BumpWins(Expanded(wins, visits, f), VisitedSet(visits), winner);
            && StatsOk(p, w)
            && p.Keys == plays.Keys + (if f.Some? then {visits[f.value]} else {})
            && (f.Some? ==> p[visits[f.value]] == 1 && w[visits[f.value]] == (if visits[f.value].0 == winner then 1 else 0))
            && (forall k :: k in plays ==> p[k] == plays[k] + (if k in visits then 1 else 0))
            && (forall k :: k in wins ==> w[k] == wins[k] + (if k in visits && k.0 == winner then 1 else 0))
            && (Settled(plays) ==> Settled(p))
  {
    var f := FirstNew(visits, plays.Keys);
    var v := VisitedSet(visits);
    var ep, ew := Expanded(plays, visits, f), Expanded(wins, visits, f);
    assert StatsOk(ep, ew);
    BackPropagationKeepsStats(ep, ew, v, winner);
    if f.Some? {
      var key := visits[f.value];
      assert key in v;
      assert ep[key] == 0 && ew[key] == 0;
    }
    forall k | k in plays ensures k in ep && ep[k] == plays[k] && (k in v <==> k in visits) {
      if f.Some? {
        assert k != visits[f.value];
      }
    }
    forall k | k in wins ensures k in ew && ew[k] == wins[k] {
      if f.Some? {
        assert k != visits[f.value];
      }
    }
    if Settled(plays) {
      forall k | k in ep ensures ep[k] >= 1 || (ep[k] == 0 && k in v) {
        if f.Some? && k == visits[f.value] {
          assert k in v;
        }
      }
      BackPropagationSettles(ep, v);
    }
  }

  /** The occupied cells after playing the simulation's pairs in order:
      each move's cell holds its player. */
  function Place(states: map<int, int>, visits: seq<Key>): map<int, int> {
    if visits == [] then states
    else Place(states, visits[..|visits| - 1])[visits[|visits| - 1].1 := visits[|visits| - 1].0]
  }

  /** The score select_one_move ranks a move by: wins.get(k, 0) /
      plays.get(k, 1), an exact rational. */
  function Ratio(plays: map<Key, int>, wins: map<Key, int>, player: int, move: int): real
    requires (player, move) in plays ==> plays[(player, move)] != 0
  {
    var w := if (player, move) in wins then wins[(player, move)] else 0;
    var n := if (player, move) in plays then plays[(player, move)] else 1;
    w as real / n as real
  }

  /** The order of Python's max over (ratio, move) tuples: ratio first,
      then the move. */
  predicate TupleLe(r1: real, m1: int, r2: real, m2: int) {
    r1 < r2 || (r1 == r2 && m1 <= m2)
  }

  // ---------------------------------------------------------------------
  // has_a_winner
  // ---------------------------------------------------------------------

  /** states.get(i, -1): the player on cell i, -1 on an empty cell. */
  function StateAt(states: map<int, int>, i: int): int {
    if i in states then states[i] else -1
  }

  /** The steps right, down, down-right and down-left in a grid of the
      given width. */
  function DirStep(width: int, dir: int): int
    requires 0 <= dir < 4
  {
    [1, width, width + 1, width - 1][dir]
  }

  /** The range guard of has_a_winner for direction dir at cell m: the n
      cells of the run stay inside the grid. */
  predicate InGuard(width: int, height: int, n: int, m: int, dir: int)
    requires width >= 1 && 0 <= dir < 4
  {
    var h, w := m / width, m % width;
    if dir == 0 then 0 <= w < width - n + 1
    else if dir == 1 then 0 <= h < height - n + 1
    else if dir == 2 then 0 <= w < width - n + 1 && 0 <= h < height - n + 1
    else n - 1 <= w < width && 0 <= h < height - n + 1
  }

  /** The set of values of the n cells m, m + step, ...; has_a_winner asks
      whether it has exactly one element. */
  function RunValues(states: map<int, int>, m: int, step: int, n: int): set<int> {
    set j | 0 <= j < n :: StateAt(states, m + j * step)
  }

  /** Reference definition: all n cells hold what cell m holds. */
  predicate AllSame(states: map<int, int>, m: int, step: int, n: int) {
    forall j :: 0 <= j < n ==> StateAt(states, m + j * step) == StateAt(states, m)
  }

  /** One distinct value among the n cells exactly when they all hold the
      value of the first. */
  lemma RunValuesSingleton(states: map<int, int>, m: int, step: int, n: int)
    requires n >= 1
    ensures |RunValues(states, m, step, n)| == 1 <==> AllSame(states, m, step, n)
  {
    var vals := RunValues(states, m, step, n);
    var v := StateAt(states, m);
    assert v == StateAt(states, m + 0 * step);
    assert v in vals;
    if AllSame(states, m, step, n) {
      assert vals == {v};
    }
    if |vals| == 1 {
      forall j | 0 <= j < n ensures StateAt(states, m + j * step) == v {
        var u := StateAt(states, m + j * step);
        assert u in vals;
        if u != v {
          assert {u, v} <= vals;
          assert |{u, v}| == 2;
          SubsetCard({u, v}, vals);
        }
      }
    }
  }

  lemma SubsetCard(a: set<int>, b: set<int>)
    requires a <= b
    ensures |a| <= |b|
  {
    assert b == a + (b - a);
  }

  /** Cell m starts n equal cells in some guarded direction. */
  predicate WinsAt(width: int, height: int, n: int, states: map<int, int>, m: int)
    requires width >= 1
  {
    exists dir :: 0 <= dir < 4 && InGuard(width, height, n, m, dir) && AllSame(states, m, DirStep(width, dir), n)
  }

  /** The scan of has_a_winner over the occupied cells, in their order: the
      first cell that starts a run decides the winner. */
  function Scan(width: int, height: int, n: int, states: map<int, int>, moved: seq<int>): (r: (bool, int))
    requires width >= 1 && n >= 1
    ensures r.0 ==> exists k :: 0 <= k < |moved| && WinsAt(width, height, n, states, moved[k])
                              && r.1 == StateAt(states, moved[k])
                              && forall i :: 0 <= i < k ==> !WinsAt(width, height, n, states, moved[i])
    ensures !r.0 ==> r.1 == -1 && forall k :: 0 <= k < |moved| ==> !WinsAt(width, height, n, states, moved[k])
    decreases |moved|
  {
    if moved == [] then (false, -1)
    else
      var m := moved[0];
      var h, w := m / width, m % width;
      var player := StateAt(states, m);
      RunValuesSingleton(states, m, 1, n);
      RunValuesSingleton(states, m, width, n);
      RunValuesSingleton(states, m, width + 1, n);
      RunValuesSingleton(states, m, width - 1, n);
      assert DirStep(width, 0) == 1 && DirStep(width, 1) == width;
      assert DirStep(width, 2) == width + 1 && DirStep(width, 3) == width - 1;
      if 0 <= w < width - n + 1 && |RunValues(states, m, 1, n)| == 1 then
        assert InGuard(width, height, n, m, 0);
        (true, player)
      else if 0 <= h < height - n + 1 && |RunValues(states, m, width, n)| == 1 then
        assert InGuard(width, height, n, m, 1);
        (true, player)
      else if 0 <= w < width - n + 1 && 0 <= h < height - n + 1 && |RunValues(states, m, width + 1, n)| == 1 then
        assert InGuard(width, height, n, m, 2);
        (true, player)
      else if n - 1 <= w < width && 0 <= h < height - n + 1 && |RunValues(states, m, width - 1, n)| == 1 then
        assert InGuard(width, height, n, m, 3);
        (true, player)
      else
        var rest := Scan(width, height, n, states, moved[1..]);
        assert !WinsAt(width, height, n, states, m);
        if rest.0 then
          var k :| 0 <= k < |moved[1..]| && WinsAt(width, height, n, states, moved[1..][k])
                   && rest.1 == StateAt(states, moved[1..][k])
                   && forall i :: 0 <= i < k ==> !WinsAt(width, height, n, states, moved[1..][i]);
          assert WinsAt(width, height, n, states, moved[k + 1]);
          assert forall i :: 1 <= i < k + 1 ==> moved[i] == moved[1..][i - 1];
          rest
        else
          assert forall i :: 1 <= i < |moved| ==> moved[i] == moved[1..][i - 1];
          rest
  }

  /** The run of n cells read with states[i] as written: None stands for
      the KeyError raised on the first empty cell. */
  function RunValuesAsWritten(states: map<int, int>, m: int, step: int, n: int): Option<set<int>> {
    if forall j :: 0 <= j < n ==> m + j * step in states then Some(RunValues(states, m, step, n)) else None
  }

  /** has_a_winner's scan as written, with states[i]: None stands for a
      KeyError, raised as soon as a guarded run reaches an empty cell. */
  function ScanAsWritten(width: int, height: int, n: int, states: map<int, int>, moved: seq<int>): Option<(bool, int)>
    requires width >= 1
    decreases |moved|
  {
    if moved == [] then Some((false, -1))
    else
      var m := moved[0];
      var h, w := m / width, m % width;
      var player := StateAt(states, m);
      var right := RunValuesAsWritten(states, m, 1, n);
      var down := RunValuesAsWritten(states, m, width, n);
      var diag := RunValuesAsWritten(states, m, width + 1, n);
      var anti := RunValuesAsWritten(states, m, width - 1, n);
      if 0 <= w < width - n + 1 && right.None? then None
      else if 0 <= w < width - n + 1 && |right.value| == 1 then Some((true, player))
      else if 0 <= h < height - n + 1 && down.None? then None
      else if 0 <= h < height - n + 1 && |down.value| == 1 then Some((true, player))
      else if 0 <= w < width - n + 1 && 0 <= h < height - n + 1 && diag.None? then None
      else if 0 <= w < width - n + 1 && 0 <= h < height - n + 1 && |diag.value| == 1 then Some((true, player))
      else if n - 1 <= w < width && 0 <= h < height - n + 1 && anti.None? then None
      else if n - 1 <= w < width && 0 <= h < height - n + 1 && |anti.value| == 1 then Some((true, player))
      else ScanAsWritten(width, height, n, states, moved[1..])
  }

  /** As written, has_a_winner raises on a 9 x 9 board with seven stones of
      one player on cells 0 and 2 to 7, a position where cells 2 to 6 are
      five in a row: the run right of cell 0 reaches the empty cell 1. */
  lemma ScanAsWrittenRaises()
    ensures var states := map[0 := 1, 2 := 1, 3 := 1, 4 := 1, 5 := 1, 6 := 1, 7 := 1];
            ScanAsWritten(9, 9, 5, states, [0, 2, 3, 4, 5, 6, 7]) == None
            && WinsAt(9, 9, 5, states, 2)
  {
    var states := map[0 := 1, 2 := 1, 3 := 1, 4 := 1, 5 := 1, 6 := 1, 7 := 1];
    assert 0 + 1 * 1 !in states;
    assert RunValuesAsWritten(states, 0, 1, 5) == None;
    assert InGuard(9, 9, 5, 2, 0);
    assert AllSame(states, 2, DirStep(9, 0), 5) by {
      forall j | 0 <= j < 5 ensures StateAt(states, 2 + j * 1) == StateAt(states, 2) {
        assert 2 + j * 1 in {2, 3, 4, 5, 6};
      }
    }
  }

  /** The column and row offsets of one step in direction dir. */
  function DeltaCol(dir: int): int { if dir == 0 || dir == 2 then 1 else if dir == 1 then 0 else -1 }
  function DeltaRow(dir: int): int { if dir == 0 then 0 else 1 }

  lemma MulMono(a: int, b: int, width: int)
    requires a <= b && width >= 0
    ensures a * width <= b * width
  {
    assert b * width - a * width == (b - a) * width;
  }

  /** The cell at row r and column col of the grid: its row and column are
      recovered by division, and it lies in the grid exactly when the row
      does. */
  lemma CellAt(width: int, height: int, r: int, col: int)
    requires width >= 1 && 0 <= col < width
    ensures var c := r * width + col;
            c / width == r && c % width == col && (0 <= c < width * height <==> 0 <= r < height)
  {
    var c := r * width + col;
    Layout.DivModUnique(c, width, r, col);
    if 0 <= r < height {
      MulMono(r + 1, height, width);
      MulMono(0, r, width);
    }
    if r >= height {
      MulMono(height, r, width);
    }
    if r < 0 {
      MulMono(r, -1, width);
    }
  }

  /** j steps in direction dir from m: j * DeltaRow rows and j * DeltaCol
      columns further. */
  lemma RunCell(width: int, m: int, dir: int, j: int)
    requires width >= 1 && 0 <= dir < 4
    ensures m + j * DirStep(width, dir) == (m / width + j * DeltaRow(dir)) * width + (m % width + j * DeltaCol(dir))
  {
    var h, w := m / width, m % width;
    assert m == h * width + w;
    if dir == 1 {
      assert (h + j) * width == h * width + j * width;
    } else if dir == 2 {
      assert j * (width + 1) == j * width + j;
      assert (h + j) * width == h * width + j * width;
    } else if dir == 3 {
      assert j * (width - 1) == j * width - j;
      assert (h + j) * width == h * width + j * width;
    }
  }

  /** The cell j steps along a guarded run from m lies inside the grid, on
      the row and column the direction leads to: the range guards keep the
      run from wrapping round an edge. */
  lemma RunInGrid(width: int, height: int, n: int, m: int, dir: int, j: int)
    requires width >= 1 && 0 <= m < width * height && 0 <= dir < 4 && 0 <= j < n
    requires InGuard(width, height, n, m, dir)
    ensures var c := m + j * DirStep(width, dir);
            && 0 <= c < width * height
            && c / width == m / width + j * DeltaRow(dir)
            && c % width == m % width + j * DeltaCol(dir)
  {
    var h, w := m / width, m % width;
    CellAt(width, height, h, w);
    var r, col := h + j * DeltaRow(dir), w + j * DeltaCol(dir);
    RunCell(width, m, dir, j);
    assert 0 <= col < width by {
      if dir == 3 { assert j * DeltaCol(dir) == -j; } else if dir == 1 { assert j * DeltaCol(dir) == 0; } else { assert j * DeltaCol(dir) == j; }
    }
    assert 0 <= r < height by {
      if dir == 0 { assert j * DeltaRow(dir) == 0; } else { assert j * DeltaRow(dir) == j; }
    }
    CellAt(width, height, r, col);
  }

  // ---------------------------------------------------------------------
  // adjacent_moves
  // ---------------------------------------------------------------------

  /** Reference definition of adjacency: c is a different in-grid cell at
      most one row and one column away from m. */
  predicate Adj8(width: int, height: int, m: int, c: int)
    requires width >= 1
  {
    && 0 <= c < width * height && c != m
    && -1 <= c / width - m / width <= 1
    && -1 <= c % width - m % width <= 1
  }

  lemma Distrib(a: int, b: int, width: int)
    ensures (a + b) * width == a * width + b * width
  {
  }
  /** m is row m / width, column m % width of the grid. */
  lemma DivMod(m: int, width: int)
    requires width >= 1
    ensures m == (m / width) * width + m % width && 0 <= m % width < width
  {
  }
  /** A cell of the grid lies in one of its rows. */
  lemma RowOf(width: int, height: int, m: int)
    requires width >= 1 && 0 <= m < width * height
    ensures 0 <= m / width < height
  {
    DivMod(m, width);
    CellAt(width, height, m / width, m % width);
  }
  /** The cell dy rows and dx columns away from m, for a column inside
      the grid. */
  lemma Offset(width: int, height: int, m: int, c: int, dy: int, dx: int)
    requires width >= 1 && 0 <= m < width * height && -1 <= dy <= 1
    requires 0 <= m % width + dx < width && c == m + dy * width + dx
    ensures c / width == m / width + dy && c % width == m % width + dx
    ensures 0 <= c < width * height <==> 0 <= m / width + dy < height
  {
    var h, w := m / width, m % width;
    DivMod(m, width);
    if dy == 1 {
      Distrib(h, 1, width);
      assert c == (h + 1) * width + (w + dx);
    } else if dy == -1 {
      Distrib(h - 1, 1, width);
      assert c == (h - 1) * width + (w + dx);
    } else {
      assert c == h * width + (w + dx);
    }
    CellAt(width, height, h + dy, w + dx);
  }
  /** The eight cells adjacent_moves adds for m, each under its guard. */
  predicate EightWay(width: int, height: int, m: int, c: int)
    requires width >= 1
  {
    var h, w := m / width, m % width;
    || (w < width - 1 && c == m + 1)
    || (w > 0 && c == m - 1)
    || (h < height - 1 && c == m + width)
    || (h > 0 && c == m - width)
    || (w < width - 1 && h < height - 1 && c == m + width + 1)
    || (w > 0 && h < height - 1 && c == m + width - 1)
    || (w < width - 1 && h > 0 && c == m - width + 1)
    || (w > 0 && h > 0 && c == m - width - 1)
  }

  /** Every cell adjacent_moves adds for m is adjacent to m. */
  lemma EightWayAdjacent(width: int, height: int, m: int, c: int)
    requires width >= 1 && 0 <= m < width * height && EightWay(width, height, m, c)
    ensures Adj8(width, height, m, c)
  {
    var h, w := m / width, m % width;
    RowOf(width, height, m);
    if w < width - 1 && c == m + 1 {
      Offset(width, height, m, c, 0, 1);
    } else if w > 0 && c == m - 1 {
      Offset(width, height, m, c, 0, -1);
    } else if h < height - 1 && c == m + width {
      Offset(width, height, m, c, 1, 0);
    } else if h > 0 && c == m - width {
      Offset(width, height, m, c, -1, 0);
    } else if w < width - 1 && h < height - 1 && c == m + width + 1 {
      Offset(width, height, m, c, 1, 1);
    } else if w > 0 && h < height - 1 && c == m + width - 1 {
      Offset(width, height, m, c, 1, -1);
    } else if w < width - 1 && h > 0 && c == m - width + 1 {
      Offset(width, height, m, c, -1, 1);
    } else {
      Offset(width, height, m, c, -1, -1);
    }
  }
  /** Every cell adjacent to m is one adjacent_moves adds for m. */
  lemma AdjacentEightWay(width: int, height: int, m: int, c: int)
    requires width >= 1 && 0 <= m < width * height && Adj8(width, height, m, c)
    ensures EightWay(width, height, m, c)
  {
    var h, w := m / width, m % width;
    var ch, cw := c / width, c % width;
    DivMod(m, width);
    DivMod(c, width);
    CellAt(width, height, ch, cw);
    if ch == h + 1 {
      Distrib(h, 1, width);
      assert c == m + width + (cw - w);
    } else if ch == h - 1 {
      Distrib(ch, 1, width);
      assert c == m - width + (cw - w);
    } else {
      assert c == m + (cw - w);
    }
  }

  /** The eight guarded offsets adjacent_moves adds for m are exactly the
      cells adjacent to m. */
  lemma KingStep(width: int, height: int, m: int, c: int)
    requires width >= 1 && 0 <= m < width * height
    ensures Adj8(width, height, m, c) <==> EightWay(width, height, m, c)
  {
    if Adj8(width, height, m, c) {
      AdjacentEightWay(width, height, m, c);
    }
    if EightWay(width, height, m, c) {
      EightWayAdjacent(width, height, m, c);
    }
  }

  /** c is an in-grid, unoccupied neighbour of some occupied cell. */
  predicate NearStone(width: int, height: int, availables: seq<int>, c: int)
    requires width >= 1
  {
    && c in availables
    && exists m :: 0 <= m < width * height && m !in availables && Adj8(width, height, m, c)
  }

  /** The as-written effect of removing from adjacents while iterating
      over it: a removed element lets the next one slip by unexamined. */
  function SkipFilter(xs: seq<int>, plays: map<Key, int>, player: int): seq<int> {
    if xs == [] then []
    else if HasStats(plays, player, xs[0]) then
      (if |xs| == 1 then [] else [xs[1]] + SkipFilter(xs[2..], plays, player))
    else [xs[0]] + SkipFilter(xs[1..], plays, player)
  }

  /** One step of the as-written removal loop at position i keeps the
      part already walked plus the skip-filter of the rest unchanged. */
  lemma SkipStep(r: seq<int>, i: int, plays: map<Key, int>, player: int)
    requires 0 <= i < |r|
    ensures HasStats(plays, player, r[i]) && i + 1 < |r| ==>
              var r' := r[..i] + r[i + 1..];
              r'[..i + 1] + SkipFilter(r'[i + 1..], plays, player) == r[..i] + SkipFilter(r[i..], plays, player)
    ensures HasStats(plays, player, r[i]) && i + 1 == |r| ==>
              r[..i] == r[..i] + SkipFilter(r[i..], plays, player)
    ensures !HasStats(plays, player, r[i]) ==>
              r[..i + 1] + SkipFilter(r[i + 1..], plays, player) == r[..i] + SkipFilter(r[i..], plays, player)
  {
    assert r[i..] == [r[i]] + r[i + 1..];
    if HasStats(plays, player, r[i]) {
      if i + 1 < |r| {
        var r' := r[..i] + r[i + 1..];
        assert r[i + 1..] == [r[i + 1]] + r[i + 2..];
        assert r'[..i + 1] == r[..i] + [r[i + 1]];
        assert r'[i + 1..] == r[i + 2..];
      }
    } else {
      assert r[..i + 1] == r[..i] + [r[i]];
    }
  }

  /** Lines 352-354 of adjacent_moves as written: walk the list by
      position and remove every move with statistics from it; the walk
      still advances after a removal. */
  method RemoveWhileIterating(adjacents: seq<int>, plays: map<Key, int>, player: int) returns (r: seq<int>)
    ensures r == SkipFilter(adjacents, plays, player)
  {
    r := adjacents;
    var i := 0;
    while i < |r|
      invariant 0 <= i <= |r| + 1
      invariant i <= |r| ==> r[..i] + SkipFilter(r[i..], plays, player) == SkipFilter(adjacents, plays, player)
      invariant i == |r| + 1 ==> r == SkipFilter(adjacents, plays, player)
    {
      var move := r[i];
      SkipStep(r, i, plays, player);
      if HasStats(plays, player, move) {
        r := r[..i] + r[i + 1..];
      }
      i := i + 1;
    }
    if i == |r| {
      assert r[i..] == [] && r[..i] == r;
    }
  }

  /** With two moves that both have statistics, the as-written removal
      keeps the second one. */
  lemma RemoveWhileIteratingKeeps(a: int, b: int, plays: map<Key, int>, player: int)
    requires HasStats(plays, player, a) && HasStats(plays, player, b)
    ensures SkipFilter([a, b], plays, player) == [b]
  {
    assert [a, b][2..] == [];
  }

  /** The removal as intended: exactly the moves without statistics stay,
      in their order. */
  function WithoutStats(xs: seq<int>, plays: map<Key, int>, player: int): (r: seq<int>)
    ensures forall x :: x in r <==> x in xs && !HasStats(plays, player, x)
  {
    if xs == [] then []
    else (if HasStats(plays, player, xs[0]) then [] else [xs[0]]) + WithoutStats(xs[1..], plays, player)
  }

  /** The as-written removal differs from the intended one as soon as two
      consecutive moves both have statistics. */
  lemma SkipFilterDiffers(a: int, b: int, plays: map<Key, int>, player: int)
    requires HasStats(plays, player, a) && HasStats(plays, player, b)
    ensures b in SkipFilter([a, b], plays, player) && b !in WithoutStats([a, b], plays, player)
  {
    RemoveWhileIteratingKeeps(a, b, plays, player);
  }

  // ---------------------------------------------------------------------
  // The board the search plays on
  // ---------------------------------------------------------------------

  /** list(set(range(width * height)) - set(availables)): the occupied
      cells, in ascending order. */
  function Occupied(width: int, height: int, availables: seq<int>): (r: seq<int>)
    requires width >= 1 && height >= 1
    ensures forall c :: c in r <==> 0 <= c < width * height && c !in availables
    ensures forall a, b :: 0 <= a < b < |r| ==> r[a] < r[b]
  {
    Where1d(seq(width * height, c => c !in availables))
  }

  /** Any listing of the same cells gives Scan the same verdict, and the
      same player whenever all the runs it could find belong to one player:
      the order of `moved` matters only when both players have a run. */
  lemma ScanOrderIrrelevant(width: int, height: int, n: int, states: map<int, int>, m1: seq<int>, m2: seq<int>)
    requires width >= 1 && n >= 1
    requires forall c :: c in m1 <==> c in m2
    ensures Scan(width, height, n, states, m1).0 == Scan(width, height, n, states, m2).0
    ensures (forall a, b :: a in m1 && b in m1 && WinsAt(width, height, n, states, a) && WinsAt(width, height, n, states, b)
               ==> StateAt(states, a) == StateAt(states, b))
            ==> Scan(width, height, n, states, m1).1 == Scan(width, height, n, states, m2).1
  {
    var r1, r2 := Scan(width, height, n, states, m1), Scan(width, height, n, states, m2);
    if r1.0 {
      var k1 :| 0 <= k1 < |m1| && WinsAt(width, height, n, states, m1[k1]) && r1.1 == StateAt(states, m1[k1]);
      assert m1[k1] in m2;
    }
    if r2.0 {
      var k2 :| 0 <= k2 < |m2| && WinsAt(width, height, n, states, m2[k2]) && r2.1 == StateAt(states, m2[k2]);
      assert m2[k2] in m1;
    }
  }

  /** Scanning the occupied cells in ascending order finds the least
      occupied cell that starts a run. */
  lemma ScanOnStones(width: int, height: int, n: int, states: map<int, int>, moved: seq<int>)
    requires width >= 1 && n >= 1
    requires forall a, b :: 0 <= a < b < |moved| ==> moved[a] < moved[b]
    requires forall c :: c in moved <==> c in states
    ensures var r := Scan(width, height, n, states, moved);
            && (r.0 ==> exists c :: c in states && WinsAt(width, height, n, states, c) && r.1 == states[c]
                                    && forall c' :: c' in states && c' < c ==> !WinsAt(width, height, n, states, c'))
            && (!r.0 ==> r.1 == -1 && forall c :: c in states ==> !WinsAt(width, height, n, states, c))
  {
    var r := Scan(width, height, n, states, moved);
    if r.0 {
      var k :| 0 <= k < |moved| && WinsAt(width, height, n, states, moved[k])
               && r.1 == StateAt(states, moved[k])
               && forall i :: 0 <= i < k ==> !WinsAt(width, height, n, states, moved[i]);
      forall c' | c' in states && c' < moved[k] ensures !WinsAt(width, height, n, states, c') {
        var i :| 0 <= i < |moved| && moved[i] == c';
        assert i < k;
      }
      assert moved[k] in states;
    } else {
      forall c | c in states ensures !WinsAt(width, height, n, states, c) {
        var i :| 0 <= i < |moved| && moved[i] == c;
      }
    }
  }

  /** list.remove on a list without repeats: the element goes, the rest
      stay, still without repeats. */
  lemma RemoveAt(xs: seq<int>, i: int)
    requires 0 <= i < |xs| && forall a, b :: 0 <= a < b < |xs| ==> xs[a] != xs[b]
    ensures var r := xs[..i] + xs[i + 1..];
            && |r| == |xs| - 1
            && (forall c :: c in r <==> c in xs && c != xs[i])
            && (forall a, b :: 0 <= a < b < |r| ==> r[a] != r[b])
  {
    var r := xs[..i] + xs[i + 1..];
    forall c | c in xs && c != xs[i] ensures c in r {
      var j :| 0 <= j < |xs| && xs[j] == c;
      if j < i { assert r[j] == c; } else { assert r[j - 1] == c; }
    }
    forall c | c in r ensures c in xs && c != xs[i] {
      var j :| 0 <= j < |r| && r[j] == c;
      if j < i { assert xs[j] == c; } else { assert xs[j + 1] == c; }
    }
    forall a, b | 0 <= a < b < |r| ensures r[a] != r[b] {
      var a', b' := if a < i then a else a + 1, if b < i then b else b + 1;
      assert r[a] == xs[a'] && r[b] == xs[b'];
    }
  }

  /** The width x height board the search expects: the occupied cells
      with their players, and the list of free cells. */
  class GridBoard {
    var width: int
    var height: int
    var states: map<int, int>
    var availables: seq<int>

    /** availables lists every free cell of the grid once, and only the
        grid's cells are occupied. */
    ghost predicate Valid()
      reads this
    {
      && width >= 1 && height >= 1
      && (forall c :: c in states ==> 0 <= c < width * height)
      && (forall a, b :: 0 <= a < b < |availables| ==> availables[a] != availables[b])
      && (forall c :: c in availables <==> 0 <= c < width * height && c !in states)
    }

    /** update(player, move): the free cell move now holds player. */
    method Update(player: int, move: int)
      requires Valid() && move in availables
      modifies this`states, this`availables
      ensures Valid()
      ensures states == old(states)[move := player]
      ensures forall c :: c in availables <==> c in old(availables) && c != move
      ensures |availables| == |old(availables)| - 1
    {
      var i :| 0 <= i < |availables| && availables[i] == move;
      RemoveAt(availables, i);
      availables := availables[..i] + availables[i + 1..];
      states := states[move := player];
    }
  }

  /** states holds the start position s0 with the simulation's pairs
      played on it, each on a cell that was free at the start. */
  ghost predicate PlayedOn(states: map<int, int>, s0: map<int, int>, a0: seq<int>, visits: seq<Key>) {
    && states == Place(s0, visits)
    && forall i :: 0 <= i < |visits| ==> visits[i].1 in a0 && visits[i].1 in states
  }

  /** Playing one more pair on a cell that was free at the start. */
  lemma PlayedOnStep(states: map<int, int>, s0: map<int, int>, a0: seq<int>, visits: seq<Key>, key: Key)
    requires PlayedOn(states, s0, a0, visits) && key.1 in a0
    ensures PlayedOn(states[key.1 := key.0], s0, a0, visits + [key])
  {
    var visits' := visits + [key];
    assert visits'[..|visits|] == visits;
  }

  /** Pair i of a simulation is played by the (i+1)-th player of the
      turn list, round its end. */
  ghost predicate InTurn(players: seq<int>, visits: seq<Key>)
    requires |players| > 0
  {
    forall i :: 0 <= i < |visits| ==> visits[i].0 == players[i % |players|]
  }

  lemma InTurnStep(players: seq<int>, visits: seq<Key>, key: Key)
    requires |players| > 0 && InTurn(players, visits)
    requires key.0 == RotatedN(players, |visits|)[0]
    ensures InTurn(players, visits + [key])
  {
    var v := visits + [key];
    forall i | 0 <= i < |v| ensures v[i].0 == players[i % |players|] {
      if i < |visits| {
        assert v[i] == visits[i];
      } else {
        TurnOrder(players, i);
      }
    }
  }

  /** The occupied cells are the keys of states: has_a_winner's stone count
      is the number of stones on the board. */
  lemma OccupiedAreStones(board: GridBoard)
    requires board.Valid()
    ensures forall c :: c in Occupied(board.width, board.height, board.availables) <==> c in board.states
    ensures |Occupied(board.width, board.height, board.availables)| == |board.states|
  {
    var moved := Occupied(board.width, board.height, board.availables);
    DistinctCard(moved, board.states.Keys);
  }

  // ---------------------------------------------------------------------
  // The search player
  // ---------------------------------------------------------------------

  class MCTS {
    var board: GridBoard
    var playTurn: seq<int>
    var maxActions: int
    const nInRow: int := 5
    var player: int
    var maxDepth: int
    /** visits per (player, move) */
    var plays: map<Key, int>
    /** wins per (player, move) */
    var wins: map<Key, int>

    /** The player moves first; the tables start empty, as get_action
        makes them before its simulations. */
    constructor (board: GridBoard, playTurn: seq<int>, maxActions: int)
      requires |playTurn| > 0
      ensures this.board == board && this.playTurn == playTurn && this.maxActions == maxActions
      ensures player == playTurn[0] && maxDepth == 1
      ensures plays == map[] && wins == map[] && StatsOk(plays, wins) && Settled(plays)
    {
      this.board := board;
      this.playTurn := playTurn;
      this.maxActions := maxActions;
      player := playTurn[0];
      maxDepth := 1;
      plays := map[];
      wins := map[];
    }

    /** has_a_winner, reading an empty cell as -1: no winner with fewer
        than nInRow + 2 stones on the board; otherwise the player of the
        first occupied cell, in ascending order, that starts nInRow equal
        cells right, down, down-right or down-left within the grid, and
        (false, -1) when there is none. */
    function HasAWinner(board: GridBoard): (r: (bool, int))
      reads board
      requires board.Valid()
      ensures |board.states| < nInRow + 2 ==> r == (false, -1)
      ensures r.0 ==> |board.states| >= nInRow + 2
      ensures r.0 ==> exists c :: c in board.states && WinsAt(board.width, board.height, nInRow, board.states, c)
                                  && r.1 == board.states[c]
                                  && forall c' :: c' in board.states && c' < c ==> !WinsAt(board.width, board.height, nInRow, board.states, c')
      ensures !r.0 ==> r.1 == -1
      ensures !r.0 && |board.states| >= nInRow + 2 ==>
                forall c :: c in board.states ==> !WinsAt(board.width, board.height, nInRow, board.states, c)
    {
      var moved := Occupied(board.width, board.height, board.availables);
      OccupiedAreStones(board);
      if |moved| < nInRow + 2 then (false, -1)
      else
        ScanOnStones(board.width, board.height, nInRow, board.states, moved);
        Scan(board.width, board.height, nInRow, board.states, moved)
    }

    /** adjacent_moves, with the removal done as intended: the free cells
        next to some stone, in any of the eight directions, that have no
        statistics for player. */
    method AdjacentMoves(board: GridBoard, player: int, plays: map<Key, int>) returns (adjacents: set<int>)
      requires board.Valid()
      ensures forall c :: c in adjacents <==>
                NearStone(board.width, board.height, board.availables, c) && !HasStats(plays, player, c)
    {
      var width, height := board.width, board.height;
      var moved := Occupied(width, height, board.availables);
      adjacents := {};
      for k := 0 to |moved|
        invariant forall c :: c in adjacents <==> exists i :: 0 <= i < k && Adj8(width, height, moved[i], c)
      {
        ghost var before := adjacents;
        adjacents := AddNeighbors(width, height, moved[k], adjacents);
        forall c | c in adjacents ensures exists i :: 0 <= i < k + 1 && Adj8(width, height, moved[i], c) {
          if c !in before {
            assert Adj8(width, height, moved[k], c);
          }
        }
      }
      adjacents := adjacents - (set c | c in moved);
      adjacents := set c | c in adjacents && !HasStats(plays, player, c);
      forall c | NearStone(width, height, board.availables, c) ensures exists i :: 0 <= i < |moved| && Adj8(width, height, moved[i], c) {
        var m :| 0 <= m < width * height && m !in board.availables && Adj8(width, height, m, c);
        assert m in moved;
      }
    }

    /** The body of adjacent_moves' loop: add the in-grid cells around m,
        each under the guard that keeps it in the grid. */
    static method AddNeighbors(width: int, height: int, m: int, adjacents: set<int>) returns (adjacents': set<int>)
      requires width >= 1 && height >= 1 && 0 <= m < width * height
      ensures forall c :: c in adjacents' <==> c in adjacents || Adj8(width, height, m, c)
    {
      adjacents' := adjacents;
      var h, w := m / width, m % width;
      if w < width - 1 {
        adjacents' := adjacents' + {m + 1};
      }
      if w > 0 {
        adjacents' := adjacents' + {m - 1};
      }
      if h < height - 1 {
        adjacents' := adjacents' + {m + width};
      }
      if h > 0 {
        adjacents' := adjacents' + {m - width};
      }
      if w < width - 1 && h < height - 1 {
        adjacents' := adjacents' + {m + width + 1};
      }
      if w > 0 && h < height - 1 {
        adjacents' := adjacents' + {m + width - 1};
      }
      if w < width - 1 && h > 0 {
        adjacents' := adjacents' + {m - width + 1};
      }
      if w > 0 && h > 0 {
        adjacents' := adjacents' + {m - width - 1};
      }
      forall c ensures c in adjacents' <==> c in adjacents || Adj8(width, height, m, c) {
        KingStep(width, height, m, c);
      }
    }

    /** The move choice of run_simulation: when every free cell has
        statistics the UCB choice, left open here; otherwise a free cell
        without statistics, next to a stone when there are more than
        nInRow free cells and such a cell exists. */
    method SelectMove(board: GridBoard, player: int) returns (move: int)
      requires board.Valid() && |board.availables| > 0
      ensures move in board.availables
      ensures (exists m :: m in board.availables && !HasStats(plays, player, m)) ==> !HasStats(plays, player, move)
      ensures (exists m :: m in board.availables && !HasStats(plays, player, m)) && |board.availables| > nInRow
              && (exists c :: NearStone(board.width, board.height, board.availables, c) && !HasStats(plays, player, c))
              ==> NearStone(board.width, board.height, board.availables, move)
    {
      var avail := board.availables;
      if forall m :: m in avail ==> HasStats(plays, player, m) {
        var i :| 0 <= i < |avail|;
        move := avail[i];
      } else {
        var adjacents: set<int> := {};
        if |board.availables| > nInRow {
          adjacents := AdjacentMoves(board, player, plays);
        }
        if adjacents != {} {
          move := Choice(adjacents);
        } else {
          var peripherals := set m | m in board.availables && !HasStats(plays, player, m);
          var free :| free in board.availables && !HasStats(plays, player, free);
          assert free in peripherals;
          move := Choice(peripherals);
        }
      }
    }

    /** random.choice: some element of a non-empty collection, which one
        is left open. */
    static method Choice(s: set<int>) returns (x: int)
      requires s != {}
      ensures x in s
    {
      if forall y :: y !in s {
        NoMembers(s);
        assert false;
      }
      x :| x in s;
    }

    /** The back-propagation of run_simulation: every visited pair in the
        table gets one more visit, and one more win when its player won. */
    method BackPropagate(visitedStates: set<Key>, winner: int)
      requires plays.Keys == wins.Keys
      modifies this`plays, this`wins
      ensures plays == BumpPlays(old(plays), visitedStates)
      ensures wins == BumpWins(old(wins), visitedStates, winner)
    {
      var rest := visitedStates;
      ghost var done: set<Key> := {};
      while rest != {}
        invariant rest + done == visitedStates && rest !! done
        invariant plays == BumpPlays(old(plays), done)
        invariant wins == BumpWins(old(wins), done, winner)
        decreases |rest|
      {
        var key :| key in rest;
        rest := rest - {key};
        done := done + {key};
        if key !in plays {
          BumpStep(old(plays), old(wins), done - {key}, key, winner);
          continue;
        }
        BumpStep(old(plays), old(wins), done - {key}, key, winner);
        plays := plays[key := plays[key] + 1];
        if key.0 == winner {
          wins := wins[key := wins[key] + 1];
        }
      }
    }

    /** run_simulation: from the board given, take turns in the order of
        playTurn, each player choosing by SelectMove, until maxActions
        moves are made, the board is full or has_a_winner reports a winner;
        the first pair the tables did not hold is added to them with count
        0 (raising maxDepth to its step), and then every visited pair in
        the tables gets one more visit, and one more win when its player
        won. visits lists the pairs in the order they were played. */
    method RunSimulation(board: GridBoard, playTurn: array<int>) returns (winner: int, visits: seq<Key>)
      requires board.Valid() && |board.availables| > 0 && playTurn.Length > 0
      requires StatsOk(plays, wins)
      modifies this`plays, this`wins, this`maxDepth, board`states, board`availables, playTurn
      ensures board.Valid()
      ensures |visits| <= maxActions || visits == []
      ensures |visits| < maxActions ==> |board.availables| == 0 || HasAWinner(board).0
      ensures InTurn(old(playTurn[..]), visits)
      ensures forall i :: 0 <= i < |visits| ==> visits[i].1 in old(board.availables)
      ensures board.states == Place(old(board.states), visits)
      ensures winner == if visits == [] then -1 else HasAWinner(board).1
      ensures var f := FirstNew(visits, old(plays).Keys);
              && plays == BumpPlays(Expanded(old(plays), visits, f), VisitedSet(visits))
              && wins == BumpWins(Expanded(old(wins), visits, f), VisitedSet(visits), winner)
              && maxDepth == DepthAfter(old(maxDepth), f)
    {
      winner, visits := Descend(board, playTurn);
      BackPropagate(VisitedSet(visits), winner);
    }

    /** The loop of run_simulation: selection, move and expansion, turn
        after turn, until maxActions moves, a full board or a winner. */
    method Descend(board: GridBoard, playTurn: array<int>) returns (winner: int, visits: seq<Key>)
      requires board.Valid() && |board.availables| > 0 && playTurn.Length > 0
      requires plays.Keys == wins.Keys
      modifies this`plays, this`wins, this`maxDepth, board`states, board`availables, playTurn
      ensures SimInv(board, old(playTurn[..]), old(board.states), old(board.availables), old(plays), old(wins), old(maxDepth), visits)
      ensures |visits| <= maxActions || visits == []
      ensures |visits| < maxActions ==> |board.availables| == 0 || HasAWinner(board).0
      ensures winner == if visits == [] then -1 else HasAWinner(board).1
    {
      ghost var p0 := playTurn[..];
      ghost var s0 := board.states;
      ghost var a0 := board.availables;
      ghost var plays0, wins0, depth0 := plays, wins, maxDepth;
      var player := GetPlayer(playTurn);
      visits := [];
      winner := -1;
      var expand := true;
      var t := 1;
      while t <= maxActions
        invariant t == |visits| + 1 && (|visits| <= maxActions || visits == [])
        invariant SimInv(board, p0, s0, a0, plays0, wins0, depth0, visits)
        invariant expand <==> FirstNew(visits, plays0.Keys).None?
        invariant playTurn[..] == RotatedN(p0, t) && player == RotatedN(p0, t - 1)[0]
        invariant |board.availables| > 0 && (visits != [] ==> !HasAWinner(board).0) && winner == -1
      {
        var stop;
        expand, visits, stop, winner := Turn(board, player, t, expand, visits, p0, s0, a0, plays0, wins0, depth0);
        if stop {
          break;
        }
        ghost var w := HasAWinner(board);
        player := GetPlayer(playTurn);
        assert SimInv(board, p0, s0, a0, plays0, wins0, depth0, visits);
        assert HasAWinner(board) == w;
        t := t + 1;
      }
    }

    /** The state of run_simulation after the pairs visits, played from
        the turn list p0, the position s0 with free cells a0 and the
        tables plays0 and wins0. */
    ghost predicate SimInv(board: GridBoard, p0: seq<int>, s0: map<int, int>, a0: seq<int>,
                           plays0: map<Key, int>, wins0: map<Key, int>, depth0: int, visits: seq<Key>)
      reads this, board
    {
      && |p0| > 0
      && board.Valid() && (forall c :: c in board.availables ==> c in a0)
      && PlayedOn(board.states, s0, a0, visits)
      && InTurn(p0, visits)
      && ExpandedFrom(visits, plays0, wins0, depth0)
    }

    /** One pass of run_simulation's loop at step t: selection, the move
        on the board, the expansion and the end test; stop reports a full
        board or a winner. */
    method Turn(board: GridBoard, player: int, t: int, expand: bool, visits: seq<Key>,
                ghost p0: seq<int>, ghost s0: map<int, int>, ghost a0: seq<int>,
                ghost plays0: map<Key, int>, ghost wins0: map<Key, int>, ghost depth0: int)
      returns (expand': bool, visits': seq<Key>, stop: bool, winner: int)
      requires t == |visits| + 1 && |board.availables| > 0
      requires SimInv(board, p0, s0, a0, plays0, wins0, depth0, visits)
      requires expand <==> FirstNew(visits, plays0.Keys).None?
      requires player == RotatedN(p0, |visits|)[0]
      modifies this`plays, this`wins, this`maxDepth, board`states, board`availables
      ensures SimInv(board, p0, s0, a0, plays0, wins0, depth0, visits')
      ensures expand' <==> FirstNew(visits', plays0.Keys).None?
      ensures |visits'| == t && visits'[..|visits|] == visits
      ensures var r := HasAWinner(board); winner == r.1 && (stop <==> |board.availables| == 0 || r.0)
    {
      var move := SelectMove(board, player);
      var key := (player, move);
      PlayedOnStep(board.states, s0, a0, visits, key);
      InTurnStep(p0, visits, key);
      board.Update(player, move);
      expand' := Expand(key, t, expand, visits, plays0, wins0, depth0);
      visits' := visits + [key];
      var r := HasAWinner(board);
      winner := r.1;
      stop := |board.availables| == 0 || r.0;
    }

    /** The tables and the depth after the expansion of a simulation that
        has visited the pairs visits so far. */
    ghost predicate ExpandedFrom(visits: seq<Key>, plays0: map<Key, int>, wins0: map<Key, int>, depth0: int)
      reads this
    {
      var f := FirstNew(visits, plays0.Keys);
      && plays == Expanded(plays0, visits, f)
      && wins == Expanded(wins0, visits, f)
      && maxDepth == DepthAfter(depth0, f)
      && plays.Keys == wins.Keys
    }

    /** The expansion step of run_simulation at step t: while no pair has
        been added yet, an unknown pair enters both tables with count 0
        and raises maxDepth to t. */
    method Expand(key: Key, t: int, expand: bool, ghost visits: seq<Key>, ghost plays0: map<Key, int>,
                  ghost wins0: map<Key, int>, ghost depth0: int) returns (expand': bool)
      requires t == |visits| + 1 && ExpandedFrom(visits, plays0, wins0, depth0)
      requires expand <==> FirstNew(visits, plays0.Keys).None?
      modifies this`plays, this`wins, this`maxDepth
      ensures ExpandedFrom(visits + [key], plays0, wins0, depth0)
      ensures expand' <==> FirstNew(visits + [key], plays0.Keys).None?
    {
      var visits' := visits + [key];
      assert visits'[..|visits|] == visits;
      expand' := expand;
      if expand && key !in plays {
        expand' := false;
        plays := plays[key := 0];
        wins := wins[key := 0];
        if t > maxDepth {
          maxDepth := t;
        }
      }
    }

    /** select_one_move: the free cell with the largest wins / plays for
        the player, unseen cells counting 0 / 1, ties going to the larger
        cell. */
    method SelectOneMove() returns (move: int)
      requires board.Valid() && |board.availables| > 0 && Settled(plays)
      ensures move in board.availables
      ensures forall m :: m in board.availables ==>
                TupleLe(Ratio(plays, wins, player, m), m, Ratio(plays, wins, player, move), move)
    {
      var avail := board.availables;
      move := avail[0];
      var best := Ratio(plays, wins, player, move);
      for i := 1 to |avail|
        invariant move in avail && best == Ratio(plays, wins, player, move)
        invariant forall k :: 0 <= k < i ==> TupleLe(Ratio(plays, wins, player, avail[k]), avail[k], best, move)
      {
        var r := Ratio(plays, wins, player, avail[i]);
        if r > best || (r == best && avail[i] > move) {
          move, best := avail[i], r;
        }
      }
    }
  }
}
