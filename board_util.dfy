// Constants and helpers of the board_util module, which the engine imports.
// board_util itself is not part of this model: its constants are given the
// values below, and its helpers are stated as the functions below.
module BoardUtil {

  const EMPTY: int := 0
  const BLACK: int := 1
  const WHITE: int := 2
  const BORDER: int := 3

  /** Largest board edge length the engine accepts. */
  const MAXSIZE: int := 25

  datatype Option<+T> = None | Some(value: T)

  predicate IsBlackWhite(color: int) {
    color == BLACK || color == WHITE
  }

  /** GoBoardUtil.opponent: swaps BLACK and WHITE. */
  function Opponent(color: int): (r: int)
    requires IsBlackWhite(color)
    ensures IsBlackWhite(r) && r != color
  {
    if color == BLACK then WHITE else BLACK
  }

  lemma OpponentInvolution(color: int)
    requires IsBlackWhite(color)
    ensures Opponent(Opponent(color)) == color
  {
  }

  /** where1d: the ascending list of the indices at which `mask` holds. */
  function Where1d(mask: seq<bool>): (r: seq<int>)
    ensures forall k :: 0 <= k < |r| ==> 0 <= r[k] < |mask| && mask[r[k]]
    ensures forall q :: 0 <= q < |mask| && mask[q] ==> q in r
    ensures forall a, b :: 0 <= a < b < |r| ==> r[a] < r[b]
  {
    if |mask| == 0 then []
    else Where1d(mask[..|mask| - 1]) + (if mask[|mask| - 1] then [|mask| - 1] else [])
  }

  /** A set with no members is the empty set. */
  lemma NoMembers<T>(s: set<T>)
    requires forall y :: y !in s
    ensures s == {}
  {
    assert forall y :: y in s <==> y in {};
  }

  /** A strictly ascending list holding exactly the members of s has |s|
      elements. */
  lemma {:induction false} DistinctCard(xs: seq<int>, s: set<int>)
    requires forall a, b :: 0 <= a < b < |xs| ==> xs[a] < xs[b]
    requires forall k :: 0 <= k < |xs| ==> xs[k] in s
    requires forall p :: p in s ==> p in xs
    ensures |xs| == |s|
    decreases |xs|
  {
    if xs == [] {
      forall p | p in s ensures p in xs {}
      assert s == {};
    } else {
      var last := xs[|xs| - 1];
      var init := xs[..|xs| - 1];
      assert xs == init + [last];
      assert last !in init;
      assert last in s;
      forall p | p in s - {last} ensures p in init {
        var k :| 0 <= k < |xs| && xs[k] == p;
      }
      DistinctCard(init, s - {last});
    }
  }
}
