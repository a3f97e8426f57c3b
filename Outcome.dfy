/** The two exceptions the game engine can raise, as values. */
module Outcomes {

  /** NotImplemented: `TetrisBoard.MovePiece` has no body and throws.
      IndexOutOfRange: a write to a grid cell outside the board. */
  datatype Error = NotImplemented | IndexOutOfRange

  /** Pass: the operation returned normally; Fail: it threw `error`. */
  datatype Outcome = Pass | Fail(error: Error)
}
