/**
 * Pure facts about the `history` list of the `Game` component: turn parity,
 * which histories legal play produces, the coordinate of each move and the
 * labels of the move list.
 */
module History {
  import opened Wrappers
  import opened Decimal
  import opened BoardState
  import opened Evaluator
  import opened BoardComponent

  /** `xIsNext` as derived from the cursor: X is to move on even moves. */
  function XIsNextAt(move: nat): bool {
    move % 2 == 0
  }

  /**
   * `next` is what a click of the player to move at move number `move`
   * produces from `prev`: the board had no complete line, and exactly one
   * empty cell received that player's mark.
   */
  ghost predicate IsMove(prev: Board, next: Board, move: nat) {
    && !HasLine(prev)
    && exists i: Index :: prev[i] == Empty && next == prev[i := Filled(NextMark(XIsNextAt(move)))]
  }

  /** A history that legal play builds from the starting board. */
  ghost predicate Reachable(h: seq<Board>) {
    && |h| >= 1
    && h[0] == EMPTY_BOARD
    && forall k :: 0 <= k < |h| - 1 ==> IsMove(h[k], h[k + 1], k)
  }

  /** Number of cells of `b` holding `c`. */
  function Count(b: Board, c: Cell): nat {
    multiset(b)[c]
  }

  lemma {:induction false} CountUniform(s: seq<Cell>, c: Cell, d: Cell)
    requires forall i :: 0 <= i < |s| ==> s[i] == c
    ensures multiset(s)[c] == |s|
    ensures d != c ==> multiset(s)[d] == 0
    decreases |s|
  {
    if |s| > 0 {
      CountUniform(s[1..], c, d);
      assert s == [s[0]] + s[1..];
    }
  }

  lemma CountEmptyBoard()
    ensures Count(EMPTY_BOARD, Empty) == 9
    ensures Count(EMPTY_BOARD, Filled(X)) == 0 && Count(EMPTY_BOARD, Filled(O)) == 0
  {
    CountUniform(EMPTY_BOARD, Empty, Filled(X));
    CountUniform(EMPTY_BOARD, Empty, Filled(O));
  }

  /**
   * In a reachable history, move `k` shows `(k + 1) / 2` X marks, `k / 2` O
   * marks and `9 - k` empty cells; so X is to move exactly when the two
   * players have placed equally many marks.
   */
  lemma {:induction false} ReachableCounts(h: seq<Board>, k: nat)
    requires Reachable(h) && k < |h|
    ensures Count(h[k], Filled(X)) == (k + 1) / 2
    ensures Count(h[k], Filled(O)) == k / 2
    ensures Count(h[k], Empty) == 9 - k
    ensures XIsNextAt(k) <==> Count(h[k], Filled(X)) == Count(h[k], Filled(O))
  {
    if k == 0 {
      CountEmptyBoard();
    } else {
      ReachableCounts(h, k - 1);
      assert IsMove(h[k - 1], h[k], k - 1);
      var i: Index :| h[k - 1][i] == Empty && h[k] == h[k - 1][i := Filled(NextMark(XIsNextAt(k - 1)))];
      assert multiset(h[k]) == multiset(h[k - 1]) - multiset{Empty} + multiset{Filled(NextMark(XIsNextAt(k - 1)))};
    }
  }

  /** Legal play stops after nine moves: a reachable history has at most ten snapshots. */
  lemma ReachableLength(h: seq<Board>)
    requires Reachable(h)
    ensures |h| <= 10
  {
    ReachableCounts(h, |h| - 1);
  }

  /** `handlePlay` after a legal click keeps the history reachable. */
  lemma PlayKeepsReachable(h: seq<Board>, cursor: nat, next: Board)
    requires Reachable(h) && cursor < |h|
    requires IsMove(h[cursor], next, cursor)
    ensures Reachable(h[..cursor + 1] + [next])
  {
    var h' := h[..cursor + 1] + [next];
    forall k | 0 <= k < |h'| - 1
      ensures IsMove(h'[k], h'[k + 1], k)
    {
      if k + 1 < cursor + 1 {
        assert IsMove(h[k], h[k + 1], k);
      }
    }
  }

  /** Cell `i` was empty before and holds a mark after. */
  predicate Placed(prev: Board, next: Board, i: Index) {
    prev[i] == Empty && next[i].Filled?
  }

  /** The scan of `getMoveCoord` from cell `i` on. */
  function FirstPlacedFrom(prev: Board, next: Board, i: nat): Option<Index>
    requires i <= 9
    decreases 9 - i
  {
    if i == 9 then None
    else if Placed(prev, next, i) then Some(i)
    else FirstPlacedFrom(prev, next, i + 1)
  }

  function FirstPlaced(prev: Board, next: Board): Option<Index> {
    FirstPlacedFrom(prev, next, 0)
  }

  lemma {:induction false} FirstPlacedFromSpec(prev: Board, next: Board, i: nat)
    requires i <= 9
    ensures FirstPlacedFrom(prev, next, i).None? <==> forall j: Index :: i <= j ==> !Placed(prev, next, j)
    ensures FirstPlacedFrom(prev, next, i).Some? ==>
      var p := FirstPlacedFrom(prev, next, i).value;
      i <= p && Placed(prev, next, p) && forall j: Index :: i <= j < p ==> !Placed(prev, next, j)
    decreases 9 - i
  {
    if i < 9 {
      FirstPlacedFromSpec(prev, next, i + 1);
    }
  }

  /**
   * `getMoveCoord` finds cell `p` exactly when `p` is the smallest cell that
   * was empty before and holds a mark after.
   */
  lemma FirstPlacedIff(prev: Board, next: Board, p: Index)
    ensures FirstPlaced(prev, next) == Some(p)
      <==> Placed(prev, next, p) && forall j: Index :: j < p ==> !Placed(prev, next, j)
  {
    FirstPlacedFromSpec(prev, next, 0);
  }

  /** The text `"(row,col)"`, both 1-based, of cell `i`. */
  function CoordLabel(i: Index): string {
    "(" + NatToString(i / 3 + 1) + "," + NatToString(i % 3 + 1) + ")"
  }

  /** The row and column can be read back from a coordinate label, and they give the cell. */
  lemma CoordLabelRoundTrip(i: Index)
    ensures var s := CoordLabel(i);
      && |s| == 5 && s[0] == '(' && s[2] == ',' && s[4] == ')'
      && IsDigit(s[1]) && IsDigit(s[3])
      && 1 <= DigitValue(s[1]) <= 3 && 1 <= DigitValue(s[3]) <= 3
      && 3 * (DigitValue(s[1]) - 1) + (DigitValue(s[3]) - 1) == i
  {
  }

  /** `getMoveCoord`: the coordinate label of the cell placed between two snapshots, or `""`. */
  function MoveCoord(prev: Board, next: Board): string {
    match FirstPlaced(prev, next)
    case Some(p) => CoordLabel(p)
    case None => ""
  }

  /** Between a snapshot and the one a click on empty cell `i` produces, the label names `i`. */
  lemma MoveCoordOfClick(prev: Board, i: Index, m: Mark)
    requires prev[i] == Empty
    ensures MoveCoord(prev, prev[i := Filled(m)]) == CoordLabel(i)
  {
    FirstPlacedIff(prev, prev[i := Filled(m)], i);
  }

  /** Between two equal snapshots no cell was placed and the coordinate is empty. */
  lemma MoveCoordUnchanged(b: Board)
    ensures MoveCoord(b, b) == ""
  {
    FirstPlacedFromSpec(b, b, 0);
  }

  const GAME_START := "Go to game start"
  const GO_TO_MOVE := "Go to move #"

  /** The description of the entry for snapshot `move` in the move list. */
  function MoveLabel(h: seq<Board>, move: nat): string
    requires move < |h|
  {
    if move > 0 then GO_TO_MOVE + NatToString(move) + MoveCoord(h[move - 1], h[move])
    else GAME_START
  }

  /** `history.map(...)`: one description per snapshot, in history order. */
  function MoveLabels(h: seq<Board>): seq<string> {
    seq(|h|, k requires 0 <= k < |h| => MoveLabel(h, k))
  }

  /**
   * In a reachable history, entry 0 reads "Go to game start" and entry `k`
   * names move `k` and the cell that move filled.
   */
  lemma ReachableMoveLabels(h: seq<Board>, k: nat)
    requires Reachable(h) && k < |h|
    ensures |MoveLabels(h)| == |h|
    ensures k == 0 ==> MoveLabels(h)[k] == GAME_START
    ensures k > 0 ==> exists i: Index ::
      && h[k - 1][i] == Empty
      && h[k] == h[k - 1][i := Filled(NextMark(XIsNextAt(k - 1)))]
      && MoveLabels(h)[k] == GO_TO_MOVE + NatToString(k) + CoordLabel(i)
  {
    if k > 0 {
      assert IsMove(h[k - 1], h[k], k - 1);
      var i: Index :| h[k - 1][i] == Empty && h[k] == h[k - 1][i := Filled(NextMark(XIsNextAt(k - 1)))];
      MoveCoordOfClick(h[k - 1], i, NextMark(XIsNextAt(k - 1)));
    }
  }

  function Reverse<T>(s: seq<T>): seq<T>
    decreases |s|
  {
    if |s| == 0 then [] else [s[|s| - 1]] + Reverse(s[..|s| - 1])
  }

  lemma {:induction false} ReverseSpec<T>(s: seq<T>)
    ensures |Reverse(s)| == |s|
    ensures forall k :: 0 <= k < |s| ==> Reverse(s)[k] == s[|s| - 1 - k]
    ensures multiset(Reverse(s)) == multiset(s)
    decreases |s|
  {
    if |s| > 0 {
      var init := s[..|s| - 1];
      ReverseSpec(init);
      assert s == init + [s[|s| - 1]];
    }
  }

  /** The move list as shown: history order, or reversed when `sortAsc` is off. */
  function DisplayedMoves(h: seq<Board>, sortAsc: bool): seq<string> {
    if sortAsc then MoveLabels(h) else Reverse(MoveLabels(h))
  }

  /**
   * The displayed list holds every label once; position `k` shows snapshot
   * `k` in ascending order and snapshot `|h| - 1 - k` in descending order.
   */
  lemma DisplayedMovesOrder(h: seq<Board>, sortAsc: bool)
    ensures |DisplayedMoves(h, sortAsc)| == |h|
    ensures multiset(DisplayedMoves(h, sortAsc)) == multiset(MoveLabels(h))
    ensures forall k :: 0 <= k < |h| ==>
      DisplayedMoves(h, sortAsc)[k] == MoveLabel(h, if sortAsc then k else |h| - 1 - k)
  {
    ReverseSpec(MoveLabels(h));
  }
}
