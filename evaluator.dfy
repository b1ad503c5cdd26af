/**
 * The win evaluator `calculateWinner`: scan a fixed catalogue of eight
 * lines and report the first whose three cells hold the same mark.
 */
module Evaluator {
  import opened Wrappers
  import opened BoardState

  /** Three cell indices forming a row, a column or a diagonal. */
  type Line = (Index, Index, Index)

  /** `[mark, line]`, the value `calculateWinner` returns when a line is complete. */
  datatype Win = Win(mark: Mark, line: Line)

  /** The catalogue, in scan order: rows, then columns, then the two diagonals. */
  const LINES: seq<Line> := [
    (0, 1, 2), (3, 4, 5), (6, 7, 8),
    (0, 3, 6), (1, 4, 7), (2, 5, 8),
    (0, 4, 8), (2, 4, 6)
  ]

  /** The three cells of `l` hold one and the same mark. */
  predicate Completes(b: Board, l: Line) {
    b[l.0].Filled? && b[l.0] == b[l.1] && b[l.0] == b[l.2]
  }

  /** Some line of the catalogue is complete. */
  predicate HasLine(b: Board) {
    exists j :: 0 <= j < |LINES| && Completes(b, LINES[j])
  }

  /** Line `j` is the first complete line at or after catalogue position `k`. */
  predicate FirstCompleteFrom(b: Board, k: nat, j: nat) {
    && k <= j < |LINES|
    && Completes(b, LINES[j])
    && forall j' :: k <= j' < j ==> !Completes(b, LINES[j'])
  }

  /** The scan of `calculateWinner` started at catalogue position `k`. */
  function WinnerFrom(b: Board, k: nat): Option<Win>
    requires k <= |LINES|
    decreases |LINES| - k
  {
    if k == |LINES| then None
    else if Completes(b, LINES[k]) then Some(Win(b[LINES[k].0].mark, LINES[k]))
    else WinnerFrom(b, k + 1)
  }

  function Winner(b: Board): Option<Win> {
    WinnerFrom(b, 0)
  }

  /**
   * `calculateWinner(squares)`: the `for` loop over the catalogue with its
   * early return.
   */
  method CalculateWinner(squares: Board) returns (r: Option<Win>)
    ensures r == Winner(squares)
  {
    for i := 0 to |LINES|
      invariant WinnerFrom(squares, i) == Winner(squares)
    {
      var (a, b, c) := LINES[i];
      if squares[a].Filled? && squares[a] == squares[b] && squares[a] == squares[c] {
        return Some(Win(squares[a].mark, LINES[i]));
      }
    }
    return None;
  }

  lemma LinesDistinct(i: nat, j: nat)
    requires i < |LINES| && j < |LINES| && LINES[i] == LINES[j]
    ensures i == j
  {
  }

  lemma {:induction false} WinnerFromNone(b: Board, k: nat)
    requires k <= |LINES|
    ensures WinnerFrom(b, k).None? <==> forall j :: k <= j < |LINES| ==> !Completes(b, LINES[j])
    decreases |LINES| - k
  {
    if k < |LINES| {
      WinnerFromNone(b, k + 1);
    }
  }

  lemma {:induction false} WinnerFromSound(b: Board, k: nat)
    requires k <= |LINES| && WinnerFrom(b, k).Some?
    ensures exists j: nat :: FirstCompleteFrom(b, k, j) && WinnerFrom(b, k) == Some(Win(b[LINES[j].0].mark, LINES[j]))
    decreases |LINES| - k
  {
    if Completes(b, LINES[k]) {
      assert FirstCompleteFrom(b, k, k);
    } else {
      WinnerFromSound(b, k + 1);
      var j: nat :| FirstCompleteFrom(b, k + 1, j) && WinnerFrom(b, k + 1) == Some(Win(b[LINES[j].0].mark, LINES[j]));
      assert FirstCompleteFrom(b, k, j);
    }
  }

  lemma {:induction false} WinnerFromPicksFirst(b: Board, k: nat, j: nat)
    requires FirstCompleteFrom(b, k, j)
    ensures WinnerFrom(b, k) == Some(Win(b[LINES[j].0].mark, LINES[j]))
    decreases j - k
  {
    if k < j {
      WinnerFromPicksFirst(b, k + 1, j);
    }
  }

  /** `calculateWinner` returns `null` exactly when no line is complete. */
  lemma WinnerNoneIff(b: Board)
    ensures Winner(b).None? <==> !HasLine(b)
  {
    WinnerFromNone(b, 0);
  }

  /**
   * A reported winner is a line of the catalogue whose three cells all hold
   * the reported mark.
   */
  lemma WinnerIsCompleteLine(b: Board)
    requires Winner(b).Some?
    ensures Winner(b).value.line in LINES
    ensures var w := Winner(b).value;
      b[w.line.0] == Filled(w.mark) && b[w.line.1] == Filled(w.mark) && b[w.line.2] == Filled(w.mark)
  {
    WinnerFromSound(b, 0);
  }

  /**
   * The reported line is position `j` of the catalogue exactly when line `j`
   * is complete and no earlier line is.
   */
  lemma WinnerIsFirstCompleteLine(b: Board, j: nat)
    requires j < |LINES|
    ensures (Winner(b).Some? && Winner(b).value.line == LINES[j]) <==> FirstCompleteFrom(b, 0, j)
  {
    if Winner(b).Some? && Winner(b).value.line == LINES[j] {
      WinnerFromSound(b, 0);
      var i: nat :| FirstCompleteFrom(b, 0, i) && Winner(b) == Some(Win(b[LINES[i].0].mark, LINES[i]));
      LinesDistinct(i, j);
    }
    if FirstCompleteFrom(b, 0, j) {
      WinnerFromPicksFirst(b, 0, j);
    }
  }

  /** The board holding mark `m` on the three cells of `l` and nothing else. */
  function LineBoard(l: Line, m: Mark): Board {
    seq(9, i requires 0 <= i < 9 => if i == l.0 || i == l.1 || i == l.2 then Filled(m) else Empty)
  }

  /**
   * Two lines of the catalogue share at most one cell, so a board holding
   * one line alone reports exactly that line and its mark.
   */
  lemma LoneLineWins(j: nat, m: Mark)
    requires j < |LINES|
    ensures Winner(LineBoard(LINES[j], m)) == Some(Win(m, LINES[j]))
  {
    var b := LineBoard(LINES[j], m);
    assert FirstCompleteFrom(b, 0, j);
    WinnerFromPicksFirst(b, 0, j);
  }

  /** The starting board has no winner. */
  lemma EmptyBoardHasNoWinner()
    ensures Winner(EMPTY_BOARD) == None
  {
    WinnerNoneIff(EMPTY_BOARD);
  }
}
