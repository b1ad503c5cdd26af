/** The 9-cell board snapshot (`squares`), stored row-major. */
module BoardState {

  /** The two marks a player can write. */
  datatype Mark = X | O

  /** A cell: `null` in the source, or one of the marks. */
  datatype Cell = Empty | Filled(mark: Mark)

  /** A cell index 0..8; index i is row i / 3, column i % 3. */
  type Index = i: nat | i < 9

  type Board = s: seq<Cell> | |s| == 9
    witness [Empty, Empty, Empty, Empty, Empty, Empty, Empty, Empty, Empty]

  /** `Array(9).fill(null)`. */
  const EMPTY_BOARD: Board := [Empty, Empty, Empty, Empty, Empty, Empty, Empty, Empty, Empty]

  /** The text of a mark, `"X"` or `"O"`. */
  function MarkName(m: Mark): (s: string)
    ensures |s| == 1
  {
    match m
    case X => "X"
    case O => "O"
  }
}
