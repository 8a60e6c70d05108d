/** Rewriting the side-to-move and move-counter fields of a FEN string:
    the puzzle is played by the knight alone, so after every move it hands
    the turn back to White and restarts the counters. */
module Fen {
  import opened Text

  /** The `i`th space-separated field; a field the string does not have is
      `undefined` in the destructuring and joins as the empty string. */
  function Field(fields: seq<string>, i: nat): string {
    if i < |fields| then fields[i] else ""
  }

  /** `resetTurn(fen, color)`: pieces, castling and en-passant fields kept,
      side to move replaced by `color`, half-move clock "0", move number "1". */
  function ResetTurn(fen: string, color: string): (r: string) {
    var fields := Split(fen, ' ');
    Join([Field(fields, 0), color, Field(fields, 2), Field(fields, 3), "0", "1"], ' ')
  }

  /** The six fields of the rewritten FEN. */
  lemma ResetTurnFields(fen: string, color: string)
    requires ' ' !in color
    ensures Split(ResetTurn(fen, color), ' ') ==
      [Field(Split(fen, ' '), 0), color, Field(Split(fen, ' '), 2), Field(Split(fen, ' '), 3), "0", "1"]
  {
    var fields := Split(fen, ' ');
    var out := [Field(fields, 0), color, Field(fields, 2), Field(fields, 3), "0", "1"];
    assert ' ' !in Field(fields, 0) && ' ' !in Field(fields, 2) && ' ' !in Field(fields, 3);
    assert forall k :: 0 <= k < |out| ==> ' ' !in out[k];
    SplitJoin(out, ' ');
  }

  /** On a six-field FEN: fields 0, 2 and 3 unchanged, field 1 is `color`,
      fields 4 and 5 are "0" and "1". */
  lemma ResetTurnSixFields(fen: string, color: string)
    requires ' ' !in color
    requires |Split(fen, ' ')| == 6
    ensures var out := Split(ResetTurn(fen, color), ' ');
      var before := Split(fen, ' ');
      && |out| == 6
      && out[0] == before[0] && out[2] == before[2] && out[3] == before[3]
      && out[1] == color && out[4] == "0" && out[5] == "1"
  {
    ResetTurnFields(fen, color);
  }

  /** Rewriting twice is rewriting once. */
  lemma ResetTurnIdempotent(fen: string, color: string)
    requires ' ' !in color
    ensures ResetTurn(ResetTurn(fen, color), color) == ResetTurn(fen, color)
  {
    ResetTurnFields(fen, color);
  }

  /** A six-field FEN that already has `color` to move and counters "0 1"
      is left exactly as it is. */
  lemma ResetTurnFixesNormalised(fen: string, color: string)
    requires var fields := Split(fen, ' ');
      |fields| == 6 && fields[1] == color && fields[4] == "0" && fields[5] == "1"
    ensures ResetTurn(fen, color) == fen
  {
    var fields := Split(fen, ' ');
    assert [Field(fields, 0), color, Field(fields, 2), Field(fields, 3), "0", "1"] == fields;
    JoinSplit(fen, ' ');
  }
}
