/**
 * The state of the `Game` component: the list of snapshots, the cursor into
 * it and the sort flag of the move list, with the handlers that update them.
 */
module GameComponent {
  import opened BoardState
  import opened Evaluator
  import opened BoardComponent
  import opened History

  class Game {
    var history: seq<Board>
    var currentMove: nat
    var sortAsc: bool

    /** The history starts with the empty board and the cursor points into it. */
    ghost predicate Valid()
      reads this
    {
      && |history| >= 1
      && history[0] == EMPTY_BOARD
      && currentMove < |history|
    }

    /** The initial state of the three `useState` hooks. */
    constructor ()
      ensures Valid() && Reachable(history)
      ensures history == [EMPTY_BOARD] && currentMove == 0 && sortAsc
    {
      history := [EMPTY_BOARD];
      currentMove := 0;
      sortAsc := true;
    }

    /** `currentSquares`: the snapshot under the cursor. */
    function CurrentSquares(): Board
      reads this
      requires Valid()
    {
      history[currentMove]
    }

    /** `xIsNext`. */
    function XIsNext(): bool
      reads this
    {
      XIsNextAt(currentMove)
    }

    /**
     * `handlePlay(nextSquares)`: drop the snapshots after the cursor, append
     * the new one and move the cursor onto it.
     */
    method HandlePlay(nextSquares: Board)
      requires Valid()
      modifies this
      ensures Valid()
      ensures history == old(history[..currentMove + 1]) + [nextSquares]
      ensures currentMove == |history| - 1 == old(currentMove) + 1
      ensures forall k :: 0 <= k <= old(currentMove) ==> history[k] == old(history[k])
      ensures sortAsc == old(sortAsc)
      ensures XIsNext() == !old(XIsNext())
    {
      var nextHistory := history[..currentMove + 1] + [nextSquares];
      history := nextHistory;
      currentMove := |nextHistory| - 1;
    }

    /** `jumpTo(nextMove)`: move the cursor only. */
    method JumpTo(nextMove: nat)
      requires Valid() && nextMove < |history|
      modifies this
      ensures Valid()
      ensures currentMove == nextMove
      ensures history == old(history) && sortAsc == old(sortAsc)
    {
      currentMove := nextMove;
    }

    /** `handleSortAsc()`: flip the display order of the move list only. */
    method HandleSortAsc()
      requires Valid()
      modifies this
      ensures Valid()
      ensures sortAsc == !old(sortAsc)
      ensures history == old(history) && currentMove == old(currentMove)
    {
      sortAsc := !sortAsc;
    }

    /** `getMoveCoord(move)`: the loop over the nine cells with its early return. */
    method GetMoveCoord(move: nat) returns (coord: string)
      requires Valid() && 1 <= move < |history|
      ensures coord == MoveCoord(history[move - 1], history[move])
    {
      var moveSquares := history[move];
      var prevMoveSquares := history[move - 1];
      for i := 0 to 9
        invariant FirstPlacedFrom(prevMoveSquares, moveSquares, i) == FirstPlaced(prevMoveSquares, moveSquares)
      {
        if prevMoveSquares[i] == Empty && moveSquares[i].Filled? {
          return CoordLabel(i);
        }
      }
      return "";
    }

    /** The move list as rendered, with the sort flag applied. */
    function Moves(): seq<string>
      reads this
    {
      DisplayedMoves(history, sortAsc)
    }

    /**
     * A click on square `i` of the rendered board: the `Board` component's
     * `handleSquareClick` on the snapshot under the cursor, with `onPlay`
     * bound to `handlePlay`.
     */
    method ClickSquare(i: Index)
      requires Valid()
      modifies this
      ensures Valid() && sortAsc == old(sortAsc)
      ensures old(CurrentSquares()[i].Filled? || HasLine(CurrentSquares())) ==>
        history == old(history) && currentMove == old(currentMove)
      ensures !old(CurrentSquares()[i].Filled? || HasLine(CurrentSquares())) ==>
        && history == old(history[..currentMove + 1]) + [old(CurrentSquares()[i := Filled(NextMark(XIsNext()))])]
        && currentMove == old(currentMove) + 1
      ensures old(Reachable(history)) ==> Reachable(history)
    {
      var play := HandleSquareClick(CurrentSquares(), XIsNext(), i);
      if play.Some? {
        ghost var prev := CurrentSquares();
        assert play.value == prev[i := Filled(NextMark(XIsNext()))];
        assert IsMove(prev, play.value, currentMove);
        if Reachable(history) {
          PlayKeepsReachable(history, currentMove, play.value);
        }
        HandlePlay(play.value);
      }
    }
  }

  /**
   * A game with time travel: X takes the centre, O a corner, the player
   * steps back one move and O plays elsewhere, which discards the old branch.
   */
  method TimeTravelScenario() {
    var g := new Game();
    EmptyBoardHasNoWinner();
    WinnerNoneIff(EMPTY_BOARD);
    g.ClickSquare(4);
    var afterX := EMPTY_BOARD[4 := Filled(X)];
    assert g.history == [EMPTY_BOARD, afterX] && g.currentMove == 1 && !g.XIsNext();

    assert forall j | 0 <= j < |LINES| :: !Completes(afterX, LINES[j]);
    g.ClickSquare(0);
    var branch := afterX[0 := Filled(O)];
    assert g.history == [EMPTY_BOARD, afterX, branch] && g.currentMove == 2;

    g.JumpTo(1);
    ghost var jumpedHistory, jumpedMove := g.history, g.currentMove;
    g.JumpTo(1);
    assert g.history == jumpedHistory && g.currentMove == jumpedMove;
    assert g.CurrentSquares() == afterX && |g.history| == 3;

    g.ClickSquare(8);
    var other := afterX[8 := Filled(O)];
    assert g.history == [EMPTY_BOARD, afterX, other] && g.currentMove == 2;
    assert branch[0] != other[0] && branch !in g.history;
    assert Reachable(g.history);

    g.HandleSortAsc();
    assert g.history == [EMPTY_BOARD, afterX, other] && g.currentMove == 2 && !g.sortAsc;
  }
}
