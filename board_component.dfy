/**
 * The logic of the `Board` component: the status line and the reaction to a
 * click on a square.
 */
module BoardComponent {
  import opened Wrappers
  import opened BoardState
  import opened Evaluator

  const DRAW := "It is a draw!"
  const NEXT_PLAYER := "Next player: "
  const WINNER := "Winner: "

  /** The mark written by the player to move. */
  function NextMark(xIsNext: bool): Mark {
    if xIsNext then X else O
  }

  /** The status line shown above the board. */
  function Status(squares: Board, xIsNext: bool): string {
    match Winner(squares)
    case Some(w) => WINNER + MarkName(w.mark)
    case None => if Empty in squares then NEXT_PLAYER + MarkName(NextMark(xIsNext)) else DRAW
  }

  /**
   * With a complete line on the board, the status names the mark of the
   * first complete line of the catalogue.
   */
  lemma StatusWinner(squares: Board, xIsNext: bool, j: nat)
    requires FirstCompleteFrom(squares, 0, j)
    ensures Status(squares, xIsNext) == WINNER + MarkName(squares[LINES[j].0].mark)
  {
    WinnerIsFirstCompleteLine(squares, j);
    WinnerIsCompleteLine(squares);
  }

  /** The status names the player to move exactly when no line is complete and a cell is free. */
  lemma StatusNextPlayerIff(squares: Board, xIsNext: bool)
    ensures Status(squares, xIsNext) == NEXT_PLAYER + MarkName(NextMark(xIsNext))
      <==> !HasLine(squares) && exists i :: 0 <= i < 9 && squares[i] == Empty
  {
    WinnerNoneIff(squares);
    assert DRAW[0] != NEXT_PLAYER[0] && (WINNER + "X")[0] != NEXT_PLAYER[0] && (WINNER + "O")[0] != NEXT_PLAYER[0];
  }

  /** The status reports a draw exactly when the board is full and no line is complete. */
  lemma StatusDrawIff(squares: Board, xIsNext: bool)
    ensures Status(squares, xIsNext) == DRAW
      <==> !HasLine(squares) && forall i :: 0 <= i < 9 ==> squares[i].Filled?
  {
    WinnerNoneIff(squares);
    assert DRAW[0] != WINNER[0] && DRAW[0] != NEXT_PLAYER[0];
    if Status(squares, xIsNext) == DRAW {
      assert Empty !in squares;
    }
  }

  /**
   * `handleSquareClick(i)`: `None` when the click is ignored (no `onPlay`
   * call), otherwise the board handed to `onPlay`.
   */
  method HandleSquareClick(squares: Board, xIsNext: bool, i: Index) returns (play: Option<Board>)
    ensures play.None? <==> squares[i].Filled? || HasLine(squares)
    ensures play.Some? ==> play.value[i] == Filled(NextMark(xIsNext))
    ensures play.Some? ==> forall j :: 0 <= j < 9 && j != i ==> play.value[j] == squares[j]
  {
    var winner := CalculateWinner(squares);
    WinnerNoneIff(squares);
    if squares[i].Filled? || winner.Some? {
      return None;
    }
    var nextSquares := new Cell[9](j requires 0 <= j < 9 => squares[j]);
    nextSquares[i] := Filled(NextMark(xIsNext));
    play := Some(nextSquares[..]);
  }
}
