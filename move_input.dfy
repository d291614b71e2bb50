/** `accept_move`: reads the human's moves until one is a valid move of the position. */
module MoveInput {
  import opened Wrappers
  import opened Moves

  /** The input ran out before a valid move was entered (`raw_input` raises at end of file). */
  datatype InputError = EndOfInput

  /**
   * The line `line` names a valid move: `parse` (the two-square pattern match followed by
   * the square parser) reads a move from it, and that move, rotated into the mover's frame,
   * is one of `validMoves`.
   */
  predicate Acceptable(line: string, validMoves: seq<Move>, parse: string -> Option<Move>)
  {
    parse(line).Some? && RotateMove(parse(line).value) in validMoves
  }

  /**
   * `accept_move`. `validMoves` stands for `pos.valid_moves()` and `inputs` for the lines
   * `raw_input` returns, in order; `used` is the number of lines read. The move returned is
   * the rotation of the first acceptable line's move; lines that do not parse, or whose move
   * is not valid, are skipped.
   */
  method AcceptMove(validMoves: seq<Move>, inputs: seq<string>, parse: string -> Option<Move>)
    returns (r: Result<Move, InputError>, used: nat)
    ensures used <= |inputs|
    ensures forall k :: 0 <= k < used - 1 ==> !Acceptable(inputs[k], validMoves, parse)
    ensures r.Success? ==>
      (0 < used && Acceptable(inputs[used - 1], validMoves, parse) &&
       r.value == RotateMove(parse(inputs[used - 1]).value) && r.value in validMoves)
    ensures r.Failure? ==>
      (used == |inputs| && forall k :: 0 <= k < |inputs| ==> !Acceptable(inputs[k], validMoves, parse))
  {
    var move: Option<Move> := None;
    ghost var setAt := 0;
    used := 0;
    while move.None? || move.value !in validMoves
      invariant used <= |inputs|
      invariant forall k :: 0 <= k < used - 1 ==> !Acceptable(inputs[k], validMoves, parse)
      invariant move.Some? ==>
        (0 <= setAt < used && parse(inputs[setAt]).Some? &&
         move.value == RotateMove(parse(inputs[setAt]).value))
      invariant move.Some? && move.value in validMoves ==> setAt == used - 1
      invariant 0 < used && !(move.Some? && move.value in validMoves) ==>
        !Acceptable(inputs[used - 1], validMoves, parse)
      decreases |inputs| - used
    {
      if used == |inputs| {
        return Failure(EndOfInput), used;
      }
      var line := inputs[used];
      used := used + 1;
      match parse(line) {
        case Some(p) =>
          move := Some(RotateMove(p));
          setAt := used - 1;
        case None =>
      }
    }
    r := Success(move.value);
  }
}
