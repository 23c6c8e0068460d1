// Blocks, liberties and captures, stated over a snapshot of the cell array.
// A block is a maximal 4-connected set of stones of one colour; these are the
// notions that the flood fill, the liberty search and the capture code of
// SimpleGoBoard are proved against.
module Blocks {
  import opened BoardUtil
  import opened Layout

  /** A walk through stones of colour c, each step to an orthogonal neighbour. */
  ghost predicate IsChain(cells: seq<int>, size: int, c: int, path: seq<int>) {
    && |path| >= 1
    && (forall k :: 0 <= k < |path| ==> 0 <= path[k] < |cells| && cells[path[k]] == c)
    && (forall k :: 0 <= k < |path| - 1 ==> Adjacent(size, path[k], path[k + 1]))
  }

  /** b lies in the block of a. */
  ghost predicate Connected(cells: seq<int>, size: int, a: int, b: int) {
    && 0 <= a < |cells|
    && exists path :: IsChain(cells, size, cells[a], path) && path[0] == a && path[|path| - 1] == b
  }

  ghost predicate HasEmptyNeighbor(cells: seq<int>, size: int, q: int) {
    exists x :: Adjacent(size, q, x) && 0 <= x < |cells| && cells[x] == EMPTY
  }

  /** Some stone of the block of p has an EMPTY orthogonal neighbour. */
  ghost predicate BlockHasLiberty(cells: seq<int>, size: int, p: int) {
    exists q :: Connected(cells, size, p, q) && HasEmptyNeighbor(cells, size, q)
  }

  /** A marking that contains every same-coloured neighbour of a marked point. */
  ghost predicate ClosedUnder(cells: seq<int>, size: int, c: int, marked: seq<bool>) {
    && |marked| == |cells|
    && forall q, x :: 0 <= q < |cells| && marked[q] && Adjacent(size, q, x) && 0 <= x < |cells| && cells[x] == c
         ==> marked[x]
  }

  /** A single-stone block: no neighbour shares the stone's colour. */
  ghost predicate IsSingleStone(cells: seq<int>, size: int, p: int) {
    0 <= p < |cells| && forall x :: Adjacent(size, p, x) && 0 <= x < |cells| ==> cells[x] != cells[p]
  }

  lemma ChainPrefix(cells: seq<int>, size: int, c: int, path: seq<int>, n: int)
    requires IsChain(cells, size, c, path) && 1 <= n <= |path|
    ensures IsChain(cells, size, c, path[..n])
  {
  }

  lemma ChainAppend(cells: seq<int>, size: int, c: int, path: seq<int>, x: int)
    requires IsChain(cells, size, c, path)
    requires Adjacent(size, path[|path| - 1], x) && 0 <= x < |cells| && cells[x] == c
    ensures IsChain(cells, size, c, path + [x])
  {
    var p := path + [x];
    forall k | 0 <= k < |p| - 1 ensures Adjacent(size, p[k], p[k + 1]) {
      if k < |path| - 1 { assert p[k + 1] == path[k + 1] && p[k] == path[k]; }
    }
  }

  lemma ChainConcat(cells: seq<int>, size: int, c: int, p1: seq<int>, p2: seq<int>)
    requires IsChain(cells, size, c, p1) && IsChain(cells, size, c, p2)
    requires p1[|p1| - 1] == p2[0]
    ensures IsChain(cells, size, c, p1 + p2[1..])
  {
    var p := p1 + p2[1..];
    forall k | 0 <= k < |p| - 1 ensures Adjacent(size, p[k], p[k + 1]) {
      if k < |p1| - 1 {
        assert p[k] == p1[k] && p[k + 1] == p1[k + 1];
      } else {
        var j := k - |p1| + 1;
        assert p[k] == p2[j] && p[k + 1] == p2[j + 1];
      }
    }
  }

  function Reverse(s: seq<int>): (r: seq<int>)
    ensures |r| == |s| && forall k :: 0 <= k < |s| ==> r[k] == s[|s| - 1 - k]
  {
    seq(|s|, k requires 0 <= k < |s| => s[|s| - 1 - k])
  }

  lemma ChainReverse(cells: seq<int>, size: int, c: int, path: seq<int>)
    requires IsChain(cells, size, c, path)
    ensures IsChain(cells, size, c, Reverse(path))
  {
    var r := Reverse(path);
    forall k | 0 <= k < |r| - 1 ensures Adjacent(size, r[k], r[k + 1]) {
      var j := |path| - 2 - k;
      assert r[k] == path[j + 1] && r[k + 1] == path[j];
    }
  }

  lemma ConnectedRefl(cells: seq<int>, size: int, a: int)
    requires 0 <= a < |cells|
    ensures Connected(cells, size, a, a)
  {
    assert IsChain(cells, size, cells[a], [a]);
  }

  lemma ConnectedColor(cells: seq<int>, size: int, a: int, b: int)
    requires Connected(cells, size, a, b)
    ensures 0 <= b < |cells| && cells[b] == cells[a]
  {
    var path :| IsChain(cells, size, cells[a], path) && path[0] == a && path[|path| - 1] == b;
  }

  lemma ConnectedSym(cells: seq<int>, size: int, a: int, b: int)
    requires Connected(cells, size, a, b)
    ensures Connected(cells, size, b, a)
  {
    var path :| IsChain(cells, size, cells[a], path) && path[0] == a && path[|path| - 1] == b;
    ChainReverse(cells, size, cells[a], path);
    var r := Reverse(path);
    assert cells[b] == cells[a];
    assert IsChain(cells, size, cells[b], r) && r[0] == b && r[|r| - 1] == a;
  }

  lemma ConnectedTrans(cells: seq<int>, size: int, a: int, b: int, d: int)
    requires Connected(cells, size, a, b) && Connected(cells, size, b, d)
    ensures Connected(cells, size, a, d)
  {
    var p1 :| IsChain(cells, size, cells[a], p1) && p1[0] == a && p1[|p1| - 1] == b;
    var p2 :| IsChain(cells, size, cells[b], p2) && p2[0] == b && p2[|p2| - 1] == d;
    assert cells[b] == cells[a];
    ChainConcat(cells, size, cells[a], p1, p2);
    var p := p1 + p2[1..];
    assert p[|p| - 1] == d;
  }

  lemma ConnectedStep(cells: seq<int>, size: int, a: int, q: int, x: int)
    requires Connected(cells, size, a, q)
    requires Adjacent(size, q, x) && 0 <= x < |cells| && cells[x] == cells[a]
    ensures Connected(cells, size, a, x)
  {
    var path :| IsChain(cells, size, cells[a], path) && path[0] == a && path[|path| - 1] == q;
    ChainAppend(cells, size, cells[a], path, x);
    assert (path + [x])[0] == a;
  }

  /** Every point of a chain is connected to its start. */
  lemma ChainConnected(cells: seq<int>, size: int, path: seq<int>, k: int)
    requires |path| >= 1 && 0 <= path[0] < |cells| && IsChain(cells, size, cells[path[0]], path)
    requires 0 <= k < |path|
    ensures Connected(cells, size, path[0], path[k])
  {
    ChainPrefix(cells, size, cells[path[0]], path, k + 1);
    assert path[..k + 1][0] == path[0];
  }

  /** A marking closed under same-coloured neighbours that holds the start
      of a chain holds all of the chain. */
  lemma {:induction false} ChainStaysMarked(cells: seq<int>, size: int, c: int, marked: seq<bool>, path: seq<int>)
    requires ClosedUnder(cells, size, c, marked) && IsChain(cells, size, c, path) && marked[path[0]]
    ensures marked[path[|path| - 1]]
    decreases |path|
  {
    if |path| > 1 {
      var pre := path[..|path| - 1];
      ChainPrefix(cells, size, c, path, |path| - 1);
      ChainStaysMarked(cells, size, c, marked, pre);
      assert Adjacent(size, path[|path| - 2], path[|path| - 1]);
    }
  }

  /** Hence such a marking contains the whole block of any marked stone. */
  lemma ClosedContainsBlock(cells: seq<int>, size: int, marked: seq<bool>, a: int, q: int)
    requires 0 <= a < |cells| && ClosedUnder(cells, size, cells[a], marked) && marked[a]
    requires Connected(cells, size, a, q)
    ensures marked[q]
  {
    var path :| IsChain(cells, size, cells[a], path) && path[0] == a && path[|path| - 1] == q;
    ChainStaysMarked(cells, size, cells[a], marked, path);
  }

  /** A block with two different stones has no single-stone member. */
  lemma ConnectedNotSingle(cells: seq<int>, size: int, a: int, b: int)
    requires Connected(cells, size, a, b) && a != b
    ensures !IsSingleStone(cells, size, b)
  {
    var path :| IsChain(cells, size, cells[a], path) && path[0] == a && path[|path| - 1] == b;
    var n := |path|;
    assert n >= 2;
    assert Adjacent(size, path[n - 2], path[n - 1]);
    assert Adjacent(size, b, path[n - 2]) && cells[path[n - 2]] == cells[b];
  }

  /** A single stone's block is the stone alone. */
  lemma SingleStoneBlock(cells: seq<int>, size: int, a: int, q: int)
    requires IsSingleStone(cells, size, a) && Connected(cells, size, a, q)
    ensures q == a
  {
    if q != a {
      ConnectedSym(cells, size, a, q);
      ConnectedNotSingle(cells, size, q, a);
    }
  }

  // ---------------------------------------------------------------------------
  // Removing whole blocks

  /** q lies in the block of one of the stones in `dead`. */
  ghost predicate Removed(cells: seq<int>, size: int, dead: set<int>, q: int) {
    exists d :: d in dead && Connected(cells, size, d, q)
  }

  /** The cells with the blocks of the stones in `dead` set to EMPTY. */
  ghost function RemoveBlocks(cells: seq<int>, size: int, dead: set<int>): (r: seq<int>)
    ensures |r| == |cells|
  {
    seq(|cells|, q requires 0 <= q < |cells| => if Removed(cells, size, dead, q) then EMPTY else cells[q])
  }

  lemma RemoveNothing(cells: seq<int>, size: int)
    ensures RemoveBlocks(cells, size, {}) == cells
  {
  }

  /** A stone that survived the removal keeps its whole block. */
  lemma SurvivorBlockKept(cells: seq<int>, size: int, dead: set<int>, nb: int, q: int)
    requires 0 <= nb < |cells| && IsBlackWhite(cells[nb]) && !Removed(cells, size, dead, nb)
    requires Connected(cells, size, nb, q)
    ensures !Removed(cells, size, dead, q)
  {
    if Removed(cells, size, dead, q) {
      var d :| d in dead && Connected(cells, size, d, q);
      ConnectedSym(cells, size, nb, q);
      ConnectedTrans(cells, size, d, q, nb);
      assert Removed(cells, size, dead, nb);
    }
  }

  /** After removing other blocks, the block of a surviving stone is the same. */
  lemma SurvivorConnected(cells: seq<int>, size: int, dead: set<int>, nb: int, q: int)
    requires 0 <= nb < |cells| && IsBlackWhite(cells[nb]) && !Removed(cells, size, dead, nb)
    ensures Connected(RemoveBlocks(cells, size, dead), size, nb, q) <==> Connected(cells, size, nb, q)
  {
    var b := RemoveBlocks(cells, size, dead);
    var c := cells[nb];
    assert b[nb] == c;
    if Connected(b, size, nb, q) {
      var path :| IsChain(b, size, c, path) && path[0] == nb && path[|path| - 1] == q;
      forall k | 0 <= k < |path| ensures cells[path[k]] == c {
        assert b[path[k]] == c;
      }
      assert IsChain(cells, size, c, path);
    }
    if Connected(cells, size, nb, q) {
      var path :| IsChain(cells, size, c, path) && path[0] == nb && path[|path| - 1] == q;
      forall k | 0 <= k < |path| ensures b[path[k]] == c {
        ChainConnected(cells, size, path, k);
        SurvivorBlockKept(cells, size, dead, nb, path[k]);
      }
      assert IsChain(b, size, c, path);
    }
  }

  /** ... and so is whether it has a liberty, when the removed blocks have
      the survivor's colour. */
  lemma SurvivorLiberty(cells: seq<int>, size: int, dead: set<int>, nb: int)
    requires 0 <= nb < |cells| && IsBlackWhite(cells[nb]) && !Removed(cells, size, dead, nb)
    requires forall d :: d in dead ==> 0 <= d < |cells| && cells[d] == cells[nb]
    ensures BlockHasLiberty(RemoveBlocks(cells, size, dead), size, nb) <==> BlockHasLiberty(cells, size, nb)
  {
    var b := RemoveBlocks(cells, size, dead);
    if BlockHasLiberty(b, size, nb) {
      var q :| Connected(b, size, nb, q) && HasEmptyNeighbor(b, size, q);
      var x :| Adjacent(size, q, x) && 0 <= x < |b| && b[x] == EMPTY;
      SurvivorConnected(cells, size, dead, nb, q);
      if cells[x] != EMPTY {
        assert Removed(cells, size, dead, x);
        var d :| d in dead && Connected(cells, size, d, x);
        ConnectedColor(cells, size, d, x);
        ConnectedColor(cells, size, nb, q);
        ConnectedStep(cells, size, nb, q, x);
        SurvivorBlockKept(cells, size, dead, nb, x);
        assert false;
      }
      assert HasEmptyNeighbor(cells, size, q);
    }
    if BlockHasLiberty(cells, size, nb) {
      var q :| Connected(cells, size, nb, q) && HasEmptyNeighbor(cells, size, q);
      var x :| Adjacent(size, q, x) && 0 <= x < |cells| && cells[x] == EMPTY;
      SurvivorConnected(cells, size, dead, nb, q);
      forall d | d in dead ensures !Connected(cells, size, d, x) {
        if Connected(cells, size, d, x) { ConnectedColor(cells, size, d, x); }
      }
      assert b[x] == EMPTY;
      assert HasEmptyNeighbor(b, size, q);
    }
  }

  /** Removing the block of a survivor after removing other blocks is the
      same as removing all of them at once. */
  lemma RemoveCompose(cells: seq<int>, size: int, dead: set<int>, nb: int)
    requires 0 <= nb < |cells| && IsBlackWhite(cells[nb]) && !Removed(cells, size, dead, nb)
    ensures RemoveBlocks(RemoveBlocks(cells, size, dead), size, {nb}) == RemoveBlocks(cells, size, dead + {nb})
  {
    var b := RemoveBlocks(cells, size, dead);
    var lhs := RemoveBlocks(b, size, {nb});
    var rhs := RemoveBlocks(cells, size, dead + {nb});
    forall q | 0 <= q < |cells| ensures lhs[q] == rhs[q] {
      SurvivorConnected(cells, size, dead, nb, q);
      assert Removed(b, size, {nb}, q) <==> Connected(b, size, nb, q);
      if Connected(cells, size, nb, q) {
        assert Removed(cells, size, dead + {nb}, q);
      } else {
        assert Removed(cells, size, dead + {nb}, q) <==> Removed(cells, size, dead, q);
      }
    }
  }

  /** Whether a survivor is a single stone does not depend on the removal. */
  lemma SurvivorSingle(cells: seq<int>, size: int, dead: set<int>, nb: int)
    requires 0 <= nb < |cells| && IsBlackWhite(cells[nb]) && !Removed(cells, size, dead, nb)
    ensures IsSingleStone(RemoveBlocks(cells, size, dead), size, nb) <==> IsSingleStone(cells, size, nb)
  {
    var b := RemoveBlocks(cells, size, dead);
    forall x | Adjacent(size, nb, x) && 0 <= x < |cells| ensures (b[x] == b[nb]) <==> (cells[x] == cells[nb]) {
      if cells[x] == cells[nb] {
        ConnectedRefl(cells, size, nb);
        ConnectedStep(cells, size, nb, nb, x);
        SurvivorBlockKept(cells, size, dead, nb, x);
      }
    }
  }

  /** Removing a set of blocks is the same as removing a larger set of roots
      each of which already lies in one of the removed blocks. */
  lemma RemoveSameCover(cells: seq<int>, size: int, dead: set<int>, roots: set<int>)
    requires dead <= roots
    requires forall e :: e in roots ==> Removed(cells, size, dead, e)
    ensures RemoveBlocks(cells, size, dead) == RemoveBlocks(cells, size, roots)
  {
    forall q | 0 <= q < |cells| ensures Removed(cells, size, roots, q) ==> Removed(cells, size, dead, q) {
      if Removed(cells, size, roots, q) {
        var e :| e in roots && Connected(cells, size, e, q);
        var d :| d in dead && Connected(cells, size, d, e);
        ConnectedTrans(cells, size, d, e, q);
      }
    }
  }

  lemma RemovedSingleton(cells: seq<int>, size: int, nb: int, q: int)
    ensures Removed(cells, size, {nb}, q) <==> Connected(cells, size, nb, q)
  {
    if Connected(cells, size, nb, q) {
      assert nb in {nb};
    }
  }

  lemma RemovedMono(cells: seq<int>, size: int, dead: set<int>, more: set<int>, q: int)
    requires dead <= more && Removed(cells, size, dead, q)
    ensures Removed(cells, size, more, q)
  {
    var d :| d in dead && Connected(cells, size, d, q);
    assert d in more;
  }

  /** A single stone inside a removed block is one of the removed roots. */
  lemma RemovedSingleIsRoot(cells: seq<int>, size: int, dead: set<int>, q: int)
    requires Removed(cells, size, dead, q) && IsSingleStone(cells, size, q)
    ensures q in dead
  {
    var d :| d in dead && Connected(cells, size, d, q);
    ConnectedSym(cells, size, d, q);
    SingleStoneBlock(cells, size, q, d);
  }

  /** The neighbours in nbs holding opp whose block has no liberty. */
  ghost function DeadNeighbors(cells: seq<int>, size: int, nbs: seq<int>, opp: int): (r: set<int>)
    ensures forall x :: x in r <==> x in nbs && 0 <= x < |cells| && cells[x] == opp && !BlockHasLiberty(cells, size, x)
  {
    set x | x in nbs && 0 <= x < |cells| && cells[x] == opp && !BlockHasLiberty(cells, size, x)
  }

  /** The neighbours in nbs, in order, holding opp whose block has no
      liberty and is a single stone: the single-stone captures of a move. */
  ghost function SingleCaptures(cells: seq<int>, size: int, nbs: seq<int>, opp: int): (r: seq<int>)
    ensures forall x :: x in r ==> x in nbs && 0 <= x < |cells| && cells[x] == opp && !BlockHasLiberty(cells, size, x) && IsSingleStone(cells, size, x)
  {
    if nbs == [] then []
    else
      var x := nbs[|nbs| - 1];
      SingleCaptures(cells, size, nbs[..|nbs| - 1], opp)
        + (if 0 <= x < |cells| && cells[x] == opp && !BlockHasLiberty(cells, size, x) && IsSingleStone(cells, size, x) then [x] else [])
  }

  /** The roots in `dead` are captured neighbours among the first i of nbs. */
  ghost predicate ScanRoots(nbs: seq<int>, i: int, c1: seq<int>, size: int, opp: int, dead: set<int>)
    requires 0 <= i <= |nbs|
  {
    forall d :: d in dead ==> d in nbs[..i] && 0 <= d < |c1| && c1[d] == opp && !BlockHasLiberty(c1, size, d)
  }

  /** Every captured neighbour among the first i of nbs lies in a removed block. */
  ghost predicate ScanCovered(nbs: seq<int>, i: int, c1: seq<int>, size: int, opp: int, dead: set<int>)
    requires 0 <= i <= |nbs|
  {
    forall k :: 0 <= k < i && 0 <= nbs[k] < |c1| && c1[nbs[k]] == opp && !BlockHasLiberty(c1, size, nbs[k])
      ==> Removed(c1, size, dead, nbs[k])
  }

  /** nbs[k] is a neighbour captured by the move. */
  ghost predicate CapturedAt(nbs: seq<int>, k: int, c1: seq<int>, size: int, opp: int)
    requires 0 <= k < |nbs|
  {
    0 <= nbs[k] < |c1| && c1[nbs[k]] == opp && !BlockHasLiberty(c1, size, nbs[k])
  }

  /** The state of play_move's capture scan over nbs, the neighbours of the
      placed stone, after the first i of them: the board b is c1 (the board
      with the stone placed) with the blocks of the roots `dead` removed,
      those roots are captured neighbours among the first i, every captured
      neighbour among them lies in a removed block, and singles lists the
      single-stone captures so far. */
  ghost predicate ScanInv(b: seq<int>, size: int, nbs: seq<int>, i: int, c1: seq<int>, opp: int,
                          singles: seq<int>, dead: set<int>)
    requires 0 <= i <= |nbs|
  {
    && b == RemoveBlocks(c1, size, dead)
    && ScanRoots(nbs, i, c1, size, opp, dead)
    && ScanCovered(nbs, i, c1, size, opp, dead)
    && singles == SingleCaptures(c1, size, nbs[..i], opp)
  }

  lemma RootsExtend(nbs: seq<int>, i: int, c1: seq<int>, size: int, opp: int, dead: set<int>)
    requires 0 <= i < |nbs| && ScanRoots(nbs, i, c1, size, opp, dead)
    ensures ScanRoots(nbs, i + 1, c1, size, opp, dead)
  {
    assert forall d :: d in nbs[..i] ==> d in nbs[..i + 1] by {
      assert nbs[..i + 1] == nbs[..i] + [nbs[i]];
    }
  }

  lemma RootsAdd(nbs: seq<int>, i: int, c1: seq<int>, size: int, opp: int, dead: set<int>)
    requires 0 <= i < |nbs| && ScanRoots(nbs, i, c1, size, opp, dead) && CapturedAt(nbs, i, c1, size, opp)
    ensures ScanRoots(nbs, i + 1, c1, size, opp, dead + {nbs[i]})
  {
    RootsExtend(nbs, i, c1, size, opp, dead);
    assert nbs[i] in nbs[..i + 1];
  }

  lemma CoveredExtend(nbs: seq<int>, i: int, c1: seq<int>, size: int, opp: int, dead: set<int>)
    requires 0 <= i < |nbs| && ScanCovered(nbs, i, c1, size, opp, dead)
    requires CapturedAt(nbs, i, c1, size, opp) ==> Removed(c1, size, dead, nbs[i])
    ensures ScanCovered(nbs, i + 1, c1, size, opp, dead)
  {
  }

  lemma CoveredAdd(nbs: seq<int>, i: int, c1: seq<int>, size: int, opp: int, dead: set<int>)
    requires 0 <= i < |nbs| && ScanCovered(nbs, i, c1, size, opp, dead) && CapturedAt(nbs, i, c1, size, opp)
    ensures ScanCovered(nbs, i + 1, c1, size, opp, dead + {nbs[i]})
  {
    var dead' := dead + {nbs[i]};
    forall k | 0 <= k < i + 1 && 0 <= nbs[k] < |c1| && c1[nbs[k]] == opp && !BlockHasLiberty(c1, size, nbs[k])
      ensures Removed(c1, size, dead', nbs[k])
    {
      if k < i {
        RemovedMono(c1, size, dead, dead', nbs[k]);
      } else {
        ConnectedRefl(c1, size, nbs[i]);
        assert nbs[i] in dead';
      }
    }
  }

  lemma SinglesStep(c1: seq<int>, size: int, nbs: seq<int>, i: int, opp: int)
    requires 0 <= i < |nbs|
    ensures SingleCaptures(c1, size, nbs[..i + 1], opp)
         == SingleCaptures(c1, size, nbs[..i], opp)
            + (if CapturedAt(nbs, i, c1, size, opp) && IsSingleStone(c1, size, nbs[i]) then [nbs[i]] else [])
  {
    assert nbs[..i + 1][..i] == nbs[..i];
  }

  /** A neighbour that still holds opp on the scanned board is not removed. */
  lemma StillThereNotRemoved(b: seq<int>, size: int, nbs: seq<int>, i: int, c1: seq<int>, opp: int, dead: set<int>)
    requires 0 <= i < |nbs| && 0 <= nbs[i] < |b| && b[nbs[i]] == opp && IsBlackWhite(opp)
    requires b == RemoveBlocks(c1, size, dead)
    ensures c1[nbs[i]] == opp && !Removed(c1, size, dead, nbs[i])
  {
  }

  /** The i-th neighbour no longer holds opp: nothing to do. */
  lemma ScanSkip(b: seq<int>, size: int, nbs: seq<int>, i: int, c1: seq<int>, opp: int,
                 singles: seq<int>, dead: set<int>)
    requires 0 <= i < |nbs| && Distinct(nbs) && 0 <= nbs[i] < |b| && b[nbs[i]] != opp && IsBlackWhite(opp)
    requires ScanInv(b, size, nbs, i, c1, opp, singles, dead)
    ensures ScanInv(b, size, nbs, i + 1, c1, opp, singles, dead)
  {
    var nb := nbs[i];
    RootsExtend(nbs, i, c1, size, opp, dead);
    assert CapturedAt(nbs, i, c1, size, opp) ==> Removed(c1, size, dead, nb);
    CoveredExtend(nbs, i, c1, size, opp, dead);
    SinglesStep(c1, size, nbs, i, opp);
    if CapturedAt(nbs, i, c1, size, opp) && IsSingleStone(c1, size, nb) {
      RemovedSingleIsRoot(c1, size, dead, nb);
      assert false;
    }
  }

  /** The i-th neighbour holds opp and its block keeps a liberty. */
  lemma ScanKeep(b: seq<int>, size: int, nbs: seq<int>, i: int, c1: seq<int>, opp: int,
                 singles: seq<int>, dead: set<int>)
    requires 0 <= i < |nbs| && 0 <= nbs[i] < |b| && b[nbs[i]] == opp && IsBlackWhite(opp)
    requires BlockHasLiberty(b, size, nbs[i])
    requires ScanInv(b, size, nbs, i, c1, opp, singles, dead)
    ensures ScanInv(b, size, nbs, i + 1, c1, opp, singles, dead)
  {
    StillThereNotRemoved(b, size, nbs, i, c1, opp, dead);
    SurvivorLiberty(c1, size, dead, nbs[i]);
    RootsExtend(nbs, i, c1, size, opp, dead);
    CoveredExtend(nbs, i, c1, size, opp, dead);
    SinglesStep(c1, size, nbs, i, opp);
  }

  /** The i-th neighbour holds opp and its block has no liberty: the block
      is removed and, when it is a single stone, nbs[i] is recorded. */
  lemma ScanCapture(b: seq<int>, size: int, nbs: seq<int>, i: int, c1: seq<int>, opp: int,
                    singles: seq<int>, dead: set<int>)
    requires 0 <= i < |nbs| && 0 <= nbs[i] < |b| && b[nbs[i]] == opp && IsBlackWhite(opp)
    requires !BlockHasLiberty(b, size, nbs[i])
    requires ScanInv(b, size, nbs, i, c1, opp, singles, dead)
    ensures ScanInv(RemoveBlocks(b, size, {nbs[i]}), size, nbs, i + 1, c1, opp,
                    singles + (if IsSingleStone(b, size, nbs[i]) then [nbs[i]] else []), dead + {nbs[i]})
  {
    var nb := nbs[i];
    StillThereNotRemoved(b, size, nbs, i, c1, opp, dead);
    SurvivorLiberty(c1, size, dead, nb);
    SurvivorSingle(c1, size, dead, nb);
    RemoveCompose(c1, size, dead, nb);
    RootsAdd(nbs, i, c1, size, opp, dead);
    CoveredAdd(nbs, i, c1, size, opp, dead);
    SinglesStep(c1, size, nbs, i, opp);
  }

  /** A removed point has the colour of one of the removed roots. */
  lemma RemovedColor(cells: seq<int>, size: int, dead: set<int>, q: int)
    requires Removed(cells, size, dead, q)
    ensures exists d :: d in dead && 0 <= d < |cells| && 0 <= q < |cells| && cells[q] == cells[d]
  {
    var d :| d in dead && Connected(cells, size, d, q);
    ConnectedColor(cells, size, d, q);
  }

  /** A root of a removal lies in its own removed block. */
  lemma RootRemoved(cells: seq<int>, size: int, dead: set<int>, d: int)
    requires d in dead && 0 <= d < |cells|
    ensures Removed(cells, size, dead, d)
  {
    ConnectedRefl(cells, size, d);
  }

  /** At the end of the scan the roots cover exactly the captured neighbours. */
  lemma ScanCover(nbs: seq<int>, c1: seq<int>, size: int, opp: int, dead: set<int>)
    requires ScanRoots(nbs, |nbs|, c1, size, opp, dead) && ScanCovered(nbs, |nbs|, c1, size, opp, dead)
    ensures RemoveBlocks(c1, size, dead) == RemoveBlocks(c1, size, DeadNeighbors(c1, size, nbs, opp))
    ensures dead == {} <==> DeadNeighbors(c1, size, nbs, opp) == {}
  {
    assert nbs[..|nbs|] == nbs;
    var dn := DeadNeighbors(c1, size, nbs, opp);
    forall e | e in dn
      ensures Removed(c1, size, dead, e)
    {
      var k :| 0 <= k < |nbs| && nbs[k] == e;
    }
    RemoveSameCover(c1, size, dead, dn);
    if dn != {} {
      var e :| e in dn;
      assert Removed(c1, size, dead, e);
    }
  }

  /** At the end of the scan the board is c1 with every captured neighbour's
      block removed; only stones of colour opp were removed, and when
      something was captured the placed stone has an EMPTY neighbour. */
  lemma ScanDone(b: seq<int>, size: int, nbs: seq<int>, c1: seq<int>, opp: int, singles: seq<int>, dead: set<int>)
    requires IsBlackWhite(opp) && ScanInv(b, size, nbs, |nbs|, c1, opp, singles, dead)
    ensures b == RemoveBlocks(c1, size, DeadNeighbors(c1, size, nbs, opp))
    ensures singles == SingleCaptures(c1, size, nbs, opp)
    ensures forall q :: 0 <= q < |c1| && c1[q] != opp ==> b[q] == c1[q]
    ensures DeadNeighbors(c1, size, nbs, opp) == {} ==> b == c1
    ensures DeadNeighbors(c1, size, nbs, opp) != {} ==> exists x :: x in nbs && 0 <= x < |b| && b[x] == EMPTY
  {
    assert nbs[..|nbs|] == nbs;
    ScanCover(nbs, c1, size, opp, dead);
    forall q | 0 <= q < |c1| && Removed(c1, size, dead, q)
      ensures c1[q] == opp
    {
      RemovedColor(c1, size, dead, q);
    }
    if dead == {} {
      RemoveNothing(c1, size);
    } else {
      var d :| d in dead;
      RootRemoved(c1, size, dead, d);
    }
  }
}
