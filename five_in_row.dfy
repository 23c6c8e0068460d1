// Five in a row on the flat cell array: the Gomoku winning condition that
// SimpleGoBoard checks by walking from a stone in both senses of a step.
module FiveInRow {

  /** Cell x exists and holds c. */
  predicate Holds(cells: seq<int>, x: int, c: int) {
    0 <= x < |cells| && cells[x] == c
  }

  /** The number of cells holding c met walking from p (exclusive) in steps
      of d before the first other cell, counting at most cap of them. */
  ghost function RunLen(cells: seq<int>, p: int, d: int, c: int, cap: nat): (n: nat)
    ensures n <= cap
    decreases cap
  {
    if cap == 0 then 0
    else if Holds(cells, p + d, c) then 1 + RunLen(cells, p + d, d, c, cap - 1)
    else 0
  }

  /** The four steps the five is looked for along: horizontal (1), vertical
      (NS), the diagonal y = x (NS + 1) and the diagonal y = -x (NS - 1). */
  function Directions(ns: int): (r: seq<int>)
    ensures |r| == 4
    ensures ns >= 2 ==> forall k :: 0 <= k < 4 ==> r[k] >= 1
  {
    [1, ns, ns + 1, ns - 1]
  }

  /** Stones looked for on each side of a stone: four more make five. */
  const Reach: nat := 4

  /** The stone on p lies in at least five consecutive cells of its own
      colour c along step d. */
  ghost predicate Five(cells: seq<int>, p: int, d: int, c: int) {
    1 + RunLen(cells, p, d, c, Reach) + RunLen(cells, p, -d, c, Reach) >= 5
  }

  /** The stone on p lies in five in a row along one of the four steps. */
  ghost predicate FiveAt(cells: seq<int>, ns: int, p: int) {
    0 <= p < |cells| && exists d :: d in Directions(ns) && Five(cells, p, d, cells[p])
  }

  /** Some stone of colour c lies in five in a row. */
  ghost predicate HasFive(cells: seq<int>, ns: int, c: int) {
    exists q :: 0 <= q < |cells| && cells[q] == c && FiveAt(cells, ns, q)
  }

  /** Five cells s, s + d, ..., s + 4d all holding c: the reference
      definition of five in a row. */
  predicate FiveCells(cells: seq<int>, s: int, d: int, c: int) {
    Holds(cells, s, c) && Holds(cells, s + d, c) && Holds(cells, s + 2 * d, c)
    && Holds(cells, s + 3 * d, c) && Holds(cells, s + 4 * d, c)
  }

  lemma {:induction false} RunLenUnroll(cells: seq<int>, p: int, d: int, c: int)
    ensures RunLen(cells, p, d, c, Reach) ==
      if !Holds(cells, p + d, c) then 0
      else if !Holds(cells, p + 2 * d, c) then 1
      else if !Holds(cells, p + 3 * d, c) then 2
      else if !Holds(cells, p + 4 * d, c) then 3
      else 4
  {
    assert RunLen(cells, p, d, c, 4) == if Holds(cells, p + d, c) then 1 + RunLen(cells, p + d, d, c, 3) else 0;
    assert RunLen(cells, p + d, d, c, 3) == if Holds(cells, p + 2 * d, c) then 1 + RunLen(cells, p + 2 * d, d, c, 2) else 0;
    assert RunLen(cells, p + 2 * d, d, c, 2) == if Holds(cells, p + 3 * d, c) then 1 + RunLen(cells, p + 3 * d, d, c, 1) else 0;
    assert RunLen(cells, p + 3 * d, d, c, 1) == if Holds(cells, p + 4 * d, c) then 1 + RunLen(cells, p + 4 * d, d, c, 0) else 0;
  }

  /** The walk agrees with the reference: the stone of colour c on p lies
      in five in a row along d exactly when one of the five windows of five
      cells along d that contain p holds c throughout. */
  lemma FiveIffWindow(cells: seq<int>, p: int, d: int, c: int)
    requires Holds(cells, p, c)
    ensures Five(cells, p, d, c) <==>
      FiveCells(cells, p, d, c) || FiveCells(cells, p - d, d, c) || FiveCells(cells, p - 2 * d, d, c)
      || FiveCells(cells, p - 3 * d, d, c) || FiveCells(cells, p - 4 * d, d, c)
  {
    RunLenUnroll(cells, p, d, c);
    RunLenUnroll(cells, p, -d, c);
  }

  /** A longer cap counts the same run, cut at the shorter cap. */
  lemma {:induction false} RunLenCap(cells: seq<int>, p: int, d: int, c: int, k: nat, m: nat)
    requires k <= m
    ensures RunLen(cells, p, d, c, k) == if RunLen(cells, p, d, c, m) < k then RunLen(cells, p, d, c, m) else k
    decreases k
  {
    if k > 0 && Holds(cells, p + d, c) {
      RunLenCap(cells, p + d, d, c, k - 1, m - 1);
    }
  }

  /** The two walks of the five check: count1 stones after the walk along
      d, count2 after the walk back along -d; the count reaches 5 exactly
      on five in a row, and never passes 5. */
  lemma TwoWalks(cells: seq<int>, p: int, d: int, c: int, count1: int, count2: int)
    requires count1 == 1 + RunLen(cells, p, d, c, 5 - 1)
    requires count2 == count1 + RunLen(cells, p, -d, c, 5 - count1)
    ensures count2 <= 5
    ensures count2 == 5 <==> Five(cells, p, d, c)
  {
    RunLenCap(cells, p, -d, c, 5 - count1, Reach);
  }

  /** The walk from a stone never overruns five: it is not the case that
      four more stones follow p along d while the cell before p holds c. */
  ghost predicate NoOverrun(cells: seq<int>, p: int, d: int, c: int) {
    !(RunLen(cells, p, d, c, Reach) == Reach && Holds(cells, p - d, c))
  }

  /** If the walk from p would overrun, the stone before p already lies in
      five in a row along d. */
  lemma OverrunMeansEarlierFive(cells: seq<int>, p: int, d: int, c: int)
    requires !NoOverrun(cells, p, d, c) && Holds(cells, p, c)
    ensures Five(cells, p - d, d, c)
  {
    RunLenUnroll(cells, p, d, c);
    RunLenUnroll(cells, p - d, d, c);
    assert p - d + d == p;
  }

  /** The walk from p along d stops at five when no stone of colour c
      before p is in five in a row: otherwise the stone just before p along
      d would be. */
  lemma NoOverrunAfterNoFive(cells: seq<int>, ns: int, p: int, c: int, d: int)
    requires ns >= 2 && d in Directions(ns) && Holds(cells, p, c)
    requires forall x :: Holds(cells, x, c) && x < p ==> !FiveAt(cells, ns, x)
    ensures NoOverrun(cells, p, d, c)
  {
    if !NoOverrun(cells, p, d, c) {
      OverrunMeansEarlierFive(cells, p, d, c);
      assert false;
    }
  }

  /** points is the ascending list of the cells holding c. */
  ghost predicate ListsStones(cells: seq<int>, points: seq<int>, c: int) {
    && (forall k :: 0 <= k < |points| ==> Holds(cells, points[k], c))
    && (forall q :: 0 <= q < |cells| && cells[q] == c ==> q in points)
    && (forall a, b :: 0 <= a < b < |points| ==> points[a] < points[b])
  }

  /** The ascending scan: when none of the first i listed stones of colour
      c is in five in a row, no stone of colour c before points[i] is. */
  lemma ScanPrefixNoFive(cells: seq<int>, ns: int, points: seq<int>, c: int, i: int)
    requires 0 <= i < |points| && ListsStones(cells, points, c)
    requires forall j :: 0 <= j < i ==> !FiveAt(cells, ns, points[j])
    ensures forall x :: Holds(cells, x, c) && x < points[i] ==> !FiveAt(cells, ns, x)
  {
    forall x | Holds(cells, x, c) && x < points[i]
      ensures !FiveAt(cells, ns, x)
    {
      var j :| 0 <= j < |points| && points[j] == x;
      assert j < i;
    }
  }

  /** The ascending scan keeps the walk from overrunning: when none of the
      first i listed stones is in five in a row, the walks from points[i]
      stop at five. */
  lemma ScanNoOverrun(cells: seq<int>, ns: int, points: seq<int>, c: int, i: int)
    requires ns >= 2 && 0 <= i < |points| && ListsStones(cells, points, c)
    requires forall j :: 0 <= j < i ==> !FiveAt(cells, ns, points[j])
    ensures forall d :: d in Directions(ns) ==> NoOverrun(cells, points[i], d, c)
  {
    ScanPrefixNoFive(cells, ns, points, c, i);
    forall d | d in Directions(ns)
      ensures NoOverrun(cells, points[i], d, c)
    {
      NoOverrunAfterNoFive(cells, ns, points[i], c, d);
    }
  }

  /** A scan that finds none of the listed stones in five in a row shows
      that no stone of colour c is. */
  lemma NoneInFive(cells: seq<int>, ns: int, points: seq<int>, c: int)
    requires ListsStones(cells, points, c)
    requires forall j :: 0 <= j < |points| ==> !FiveAt(cells, ns, points[j])
    ensures !HasFive(cells, ns, c)
  {
  }

  /** A listed stone in five in a row is a five of colour c. */
  lemma FiveWitness(cells: seq<int>, ns: int, points: seq<int>, c: int, i: int)
    requires ListsStones(cells, points, c) && 0 <= i < |points| && FiveAt(cells, ns, points[i])
    ensures HasFive(cells, ns, c)
  {
  }
}
