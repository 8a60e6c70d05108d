/** The part of chess.js the puzzle uses: a board holding one position,
    with `move`, `fen`, `load` and `undo`. Which moves chess.js accepts is
    not modelled; each move takes the rules as a parameter: the position
    after the move, or `None` when chess.js returns `null`. */
module ChessAdapter {
  import opened Wrappers
  import opened Squares

  /** `chess.move(`N${square}`)`: move the knight to `square` (SAN). */
  type SanRules = (string, Square) -> Option<string>

  /** `chess.move({ from, to })`: move the piece on `from` to `to`. */
  type DropRules = (string, Square, Square) -> Option<string>

  class Chess {
    /** The current position, as `chess.fen()` returns it. */
    var fen: string
    /** Positions before each move still on chess.js's undo stack, oldest first. */
    var history: seq<string>

    /** `new Chess(position)`. */
    constructor (position: string)
      ensures fen == position && history == []
    {
      fen := position;
      history := [];
    }

    /** `chess.move(`N${square}`)`; the result says whether it was not `null`. */
    method MoveKnight(rules: SanRules, square: Square) returns (moved: bool)
      modifies this
      ensures moved == rules(old(fen), square).Some?
      ensures moved ==> fen == rules(old(fen), square).value && history == old(history) + [old(fen)]
      ensures !moved ==> fen == old(fen) && history == old(history)
    {
      var outcome := rules(fen, square);
      moved := outcome.Some?;
      if moved {
        history := history + [fen];
        fen := outcome.value;
      }
    }

    /** `chess.move({ from, to })`; the result says whether it was not `null`. */
    method MoveFromTo(rules: DropRules, from: Square, to: Square) returns (moved: bool)
      modifies this
      ensures moved == rules(old(fen), from, to).Some?
      ensures moved ==> fen == rules(old(fen), from, to).value && history == old(history) + [old(fen)]
      ensures !moved ==> fen == old(fen) && history == old(history)
    {
      var outcome := rules(fen, from, to);
      moved := outcome.Some?;
      if moved {
        history := history + [fen];
        fen := outcome.value;
      }
    }

    /** `chess.load(position)`: replaces the board and clears the undo stack. */
    method Load(position: string)
      modifies this
      ensures fen == position && history == []
    {
      fen := position;
      history := [];
    }

    /** `chess.undo()`: takes back the last move; does nothing when there is none. */
    method Undo()
      modifies this
      ensures old(history) == [] ==> fen == old(fen) && history == []
      ensures old(history) != [] ==>
        fen == old(history)[|old(history)| - 1] && history == old(history)[..|old(history)| - 1]
    {
      if history != [] {
        fen := history[|history| - 1];
        history := history[..|history| - 1];
      }
    }
  }
}
