/** Moves on the padded 120-cell board and the perspective flip between the two players. */
module Moves {

  /** Number of cells of the padded board (12 rows of 10), indexed 0 .. 119. */
  const BoardCells: int := 120

  /** A move is a (source cell, destination cell) pair of board indices. */
  datatype Move = Move(src: int, dst: int)

  /** Both ends of the move are cells of the padded board. */
  predicate OnBoard(m: Move)
  {
    0 <= m.src < BoardCells && 0 <= m.dst < BoardCells
  }

  /** `rotate_move`: the same move seen from the other side of the board. */
  function RotateMove(m: Move): (r: Move)
    ensures OnBoard(r) <==> OnBoard(m)
  {
    Move(BoardCells - 1 - m.src, BoardCells - 1 - m.dst)
  }

  /** Rotating twice gives the original move back. */
  lemma RotateMoveInvolutive(m: Move)
    ensures RotateMove(RotateMove(m)) == m
  {
  }

  /** Distinct moves stay distinct after rotation. */
  lemma RotateMoveInjective(a: Move, b: Move)
    ensures RotateMove(a) == RotateMove(b) ==> a == b
  {
  }
}
