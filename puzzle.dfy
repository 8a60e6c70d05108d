/** The knight-tour puzzle of `usePuzzle`: the target squares, the cheat
    rule, the puzzle state and the reducer over `PlaceKnight` and
    `ResetGame`, together with the chess.js board it keeps in step. */
module Puzzle {
  import opened Wrappers
  import opened Squares
  import opened Fen
  import opened ChessAdapter

  const QueenSquare: Square := Square('d', '5')

  /** White knight on h8, black queen on d5, White to move. */
  const StartingPosition: string := "7N/8/8/3q4/8/8/8/8 w - - 0 1"

  /** The squares the queen on d5 attacks (d5 itself is not listed). */
  const AttackedByQueenSquares: set<Square> := {
    Square('d', '8'), Square('d', '7'), Square('d', '6'), Square('d', '4'),
    Square('d', '3'), Square('d', '2'), Square('d', '1'),
    Square('g', '8'), Square('f', '7'), Square('e', '6'), Square('c', '4'),
    Square('b', '3'), Square('a', '2'),
    Square('h', '5'), Square('g', '5'), Square('f', '5'), Square('e', '5'),
    Square('c', '5'), Square('b', '5'), Square('a', '5'),
    Square('h', '1'), Square('g', '2'), Square('f', '3'), Square('e', '4'),
    Square('c', '6'), Square('b', '7'), Square('a', '8')
  }

  /** The filter that builds the target list. */
  predicate IsTarget(s: Square) {
    s != QueenSquare && s !in AttackedByQueenSquares
  }

  /** `targetSquares`, written out rank by rank: every square the knight
      must visit, in the order it must visit them. `TargetSquaresIsFilter`
      shows that it is the source's filter of the enumeration by
      `IsTarget`. */
  function TargetSquares(): seq<Square> {
    Rank8Targets + Rank7Targets + Rank6Targets + Rank5Targets +
    Rank4Targets + Rank3Targets + Rank2Targets + Rank1Targets
  }

  const Rank8Targets: seq<Square> := [Square('h', '8'), Square('f', '8'), Square('e', '8'), Square('c', '8'), Square('b', '8')]
  const Rank7Targets: seq<Square> := [Square('h', '7'), Square('g', '7'), Square('e', '7'), Square('c', '7'), Square('a', '7')]
  const Rank6Targets: seq<Square> := [Square('h', '6'), Square('g', '6'), Square('f', '6'), Square('b', '6'), Square('a', '6')]
  const Rank5Targets: seq<Square> := []
  const Rank4Targets: seq<Square> := [Square('h', '4'), Square('g', '4'), Square('f', '4'), Square('b', '4'), Square('a', '4')]
  const Rank3Targets: seq<Square> := [Square('h', '3'), Square('g', '3'), Square('e', '3'), Square('c', '3'), Square('a', '3')]
  const Rank2Targets: seq<Square> := [Square('h', '2'), Square('f', '2'), Square('e', '2'), Square('c', '2'), Square('b', '2')]
  const Rank1Targets: seq<Square> := [Square('g', '1'), Square('f', '1'), Square('e', '1'), Square('c', '1'), Square('b', '1'), Square('a', '1')]

  /** Taking the queen, or landing where the queen can take the knight. */
  predicate IsCheating(s: Square) {
    s == QueenSquare || s in AttackedByQueenSquares
  }

  /** What the filter keeps of each rank, square by square. */
  lemma IsTargetOnRank8()
    ensures IsTarget(SquareAt(0)) && !IsTarget(SquareAt(1)) && IsTarget(SquareAt(2)) && IsTarget(SquareAt(3))
    ensures !IsTarget(SquareAt(4)) && IsTarget(SquareAt(5)) && IsTarget(SquareAt(6)) && !IsTarget(SquareAt(7))
  {}

  lemma KeptRank8Targets()
    ensures Kept(IsTarget, 0, 8) == Rank8Targets
  {
    IsTargetOnRank8();
  }

  lemma IsTargetOnRank7()
    ensures IsTarget(SquareAt(8)) && IsTarget(SquareAt(9)) && !IsTarget(SquareAt(10)) && IsTarget(SquareAt(11))
    ensures !IsTarget(SquareAt(12)) && IsTarget(SquareAt(13)) && !IsTarget(SquareAt(14)) && IsTarget(SquareAt(15))
  {}

  lemma KeptRank7Targets()
    ensures Kept(IsTarget, 8, 16) == Rank7Targets
  {
    IsTargetOnRank7();
  }

  lemma IsTargetOnRank6()
    ensures IsTarget(SquareAt(16)) && IsTarget(SquareAt(17)) && IsTarget(SquareAt(18)) && !IsTarget(SquareAt(19))
    ensures !IsTarget(SquareAt(20)) && !IsTarget(SquareAt(21)) && IsTarget(SquareAt(22)) && IsTarget(SquareAt(23))
  {}

  lemma KeptRank6Targets()
    ensures Kept(IsTarget, 16, 24) == Rank6Targets
  {
    IsTargetOnRank6();
  }

  lemma IsTargetOnRank5()
    ensures !IsTarget(SquareAt(24)) && !IsTarget(SquareAt(25)) && !IsTarget(SquareAt(26)) && !IsTarget(SquareAt(27))
    ensures !IsTarget(SquareAt(28)) && !IsTarget(SquareAt(29)) && !IsTarget(SquareAt(30)) && !IsTarget(SquareAt(31))
  {}

  lemma KeptRank5Targets()
    ensures Kept(IsTarget, 24, 32) == Rank5Targets
  {
    IsTargetOnRank5();
  }

  lemma IsTargetOnRank4()
    ensures IsTarget(SquareAt(32)) && IsTarget(SquareAt(33)) && IsTarget(SquareAt(34)) && !IsTarget(SquareAt(35))
    ensures !IsTarget(SquareAt(36)) && !IsTarget(SquareAt(37)) && IsTarget(SquareAt(38)) && IsTarget(SquareAt(39))
  {}

  lemma KeptRank4Targets()
    ensures Kept(IsTarget, 32, 40) == Rank4Targets
  {
    IsTargetOnRank4();
  }

  lemma IsTargetOnRank3()
    ensures IsTarget(SquareAt(40)) && IsTarget(SquareAt(41)) && !IsTarget(SquareAt(42)) && IsTarget(SquareAt(43))
    ensures !IsTarget(SquareAt(44)) && IsTarget(SquareAt(45)) && !IsTarget(SquareAt(46)) && IsTarget(SquareAt(47))
  {}

  lemma KeptRank3Targets()
    ensures Kept(IsTarget, 40, 48) == Rank3Targets
  {
    IsTargetOnRank3();
  }

  lemma IsTargetOnRank2()
    ensures IsTarget(SquareAt(48)) && !IsTarget(SquareAt(49)) && IsTarget(SquareAt(50)) && IsTarget(SquareAt(51))
    ensures !IsTarget(SquareAt(52)) && IsTarget(SquareAt(53)) && IsTarget(SquareAt(54)) && !IsTarget(SquareAt(55))
  {}

  lemma KeptRank2Targets()
    ensures Kept(IsTarget, 48, 56) == Rank2Targets
  {
    IsTargetOnRank2();
  }

  lemma IsTargetOnRank1()
    ensures !IsTarget(SquareAt(56)) && IsTarget(SquareAt(57)) && IsTarget(SquareAt(58)) && IsTarget(SquareAt(59))
    ensures !IsTarget(SquareAt(60)) && IsTarget(SquareAt(61)) && IsTarget(SquareAt(62)) && IsTarget(SquareAt(63))
  {}

  lemma KeptRank1Targets()
    ensures Kept(IsTarget, 56, 64) == Rank1Targets
  {
    IsTargetOnRank1();
  }

  /** The list above is the source's filter of the enumeration. */
  lemma TargetSquaresIsFilter()
    ensures TargetSquares() == Filter(AllSquares(), IsTarget)
  {
    KeptRank8Targets();
    KeptRank7Targets();
    KeptRank6Targets();
    KeptRank5Targets();
    KeptRank4Targets();
    KeptRank3Targets();
    KeptRank2Targets();
    KeptRank1Targets();
    KeptRanks(IsTarget, Rank8Targets, Rank7Targets, Rank6Targets, Rank5Targets,
              Rank4Targets, Rank3Targets, Rank2Targets, Rank1Targets);
    FilterIsKept(IsTarget, 0, 64);
    AllSquaresWhole();
  }

  /** The target list holds exactly the board squares that are neither the
      queen's nor attacked by it, in enumeration order. */
  lemma TargetSquaresExactly()
    ensures forall s :: s in TargetSquares() <==> OnBoard(s) && IsTarget(s)
    ensures Increasing(TargetSquares())
  {
    TargetSquaresIsFilter();
    FilterOfBoard(IsTarget, TargetSquares());
  }

  /** Thirty-six targets; the first is h8, where the knight starts, and the
      second is f8, the first square it must reach. */
  lemma TargetSquaresShape()
    ensures |TargetSquares()| == 36
    ensures TargetSquares()[0] == Square('h', '8') && TargetSquares()[1] == Square('f', '8')
    ensures TargetSquares()[35] == Square('a', '1')
  {}

  /** On the board, a square is cheating exactly when it is not a target. */
  lemma CheatingIffNotTarget(s: Square)
    requires OnBoard(s)
    ensures IsCheating(s) <==> s !in TargetSquares()
  {
    TargetSquaresExactly();
  }

  /** `progress`: the share of the target list already visited. */
  function Progress(index: nat): real {
    index as real / |TargetSquares()| as real
  }

  /** `PuzzleState`; a `Date` is its time in milliseconds. */
  datatype PuzzleState = PuzzleState(
    position: string,
    nextSquareIndex: nat,
    progress: real,
    nextSquare: Option<Square>,
    startTime: Option<int>,
    stopTime: Option<int>)

  datatype Action = PlaceKnight(square: Square) | ResetGame

  /** Index 0 of the target list is h8, where the knight stands, so the
      cursor starts at 1. */
  function InitialState(): PuzzleState {
    PuzzleState(StartingPosition, 1, Progress(1), Lookup(TargetSquares(), 1), None, None)
  }

  /** What every state the reducer produces satisfies. */
  predicate WellFormed(s: PuzzleState) {
    && 1 <= s.nextSquareIndex <= |TargetSquares()|
    && s.progress == Progress(s.nextSquareIndex)
    && s.nextSquare == Lookup(TargetSquares(), s.nextSquareIndex)
    && (s.startTime.None? ==> s.nextSquareIndex == 1 && s.stopTime.None?)
    && (s.stopTime.Some? ==> s.nextSquareIndex == |TargetSquares()|)
  }

  /** Whether `PlaceKnight(target)` is accepted: chess.js makes the move
      and it is not cheating. */
  predicate Accepted(state: PuzzleState, target: Square, rules: SanRules) {
    rules(state.position, target).Some? && !IsCheating(target)
  }

  /** The reducer's result; `now` is the clock reading `new Date()` gives. */
  function Reducer(state: PuzzleState, action: Action, rules: SanRules, now: int): (r: PuzzleState) {
    match action
    case PlaceKnight(target) =>
      var knightMove := rules(state.position, target);
      if knightMove.Some? && !IsCheating(target) then
        var newPosition := ResetTurn(knightMove.value, "w");
        var startTime := if state.startTime.Some? then state.startTime else Some(now);
        var advances := Lookup(TargetSquares(), state.nextSquareIndex) == Some(target);
        var nextSquareIndex := if advances then state.nextSquareIndex + 1 else state.nextSquareIndex;
        var stopTime := if advances && nextSquareIndex == |TargetSquares()| then Some(now) else None;
        PuzzleState(newPosition, nextSquareIndex, Progress(nextSquareIndex),
                    Lookup(TargetSquares(), nextSquareIndex), startTime, stopTime)
      else
        state
    case ResetGame =>
      InitialState()
  }

  lemma InitialStateWellFormed()
    ensures WellFormed(InitialState())
    ensures InitialState().nextSquare == Some(Square('f', '8'))
  {}

  /** A move chess.js rejects, or a cheating one, leaves the state as it is. */
  lemma RejectedMoveKeepsState(state: PuzzleState, target: Square, rules: SanRules, now: int)
    requires !Accepted(state, target, rules)
    ensures Reducer(state, PlaceKnight(target), rules, now) == state
  {}

  /** What an accepted move does to each part of the state. */
  lemma AcceptedMove(state: PuzzleState, target: Square, rules: SanRules, now: int)
    requires WellFormed(state)
    requires Accepted(state, target, rules)
    ensures var next := Reducer(state, PlaceKnight(target), rules, now);
      var advances := state.nextSquareIndex < |TargetSquares()| && target == TargetSquares()[state.nextSquareIndex];
      && (OnBoard(target) ==> target in TargetSquares())
      && next.position == ResetTurn(rules(state.position, target).value, "w")
      && next.nextSquareIndex == (if advances then state.nextSquareIndex + 1 else state.nextSquareIndex)
      && next.nextSquareIndex <= |TargetSquares()|
      && next.startTime == (if state.startTime.Some? then state.startTime else Some(now))
      && (next.stopTime.Some? <==> advances && next.nextSquareIndex == |TargetSquares()|)
      && (next.stopTime.Some? ==> next.stopTime == Some(now))
  {
    if OnBoard(target) {
      CheatingIffNotTarget(target);
    }
  }

  /** Every action keeps the state well formed. */
  lemma ReducerKeepsWellFormed(state: PuzzleState, action: Action, rules: SanRules, now: int)
    requires WellFormed(state)
    ensures WellFormed(Reducer(state, action, rules, now))
  {
    match action
    case ResetGame =>
      InitialStateWellFormed();
    case PlaceKnight(target) =>
      if Accepted(state, target, rules) {
        AcceptedMove(state, target, rules, now);
      }
  }

  /** Resetting ignores the state it starts from, so resetting twice is
      resetting once. */
  lemma ResetIsIdempotent(state: PuzzleState, rules: SanRules, now: int, later: int)
    ensures Reducer(state, ResetGame, rules, now) == InitialState()
    ensures Reducer(Reducer(state, ResetGame, rules, now), ResetGame, rules, later) ==
            Reducer(state, ResetGame, rules, now)
  {}

  /** Once the last target is reached, further accepted moves keep the cursor
      at the end but clear `stopTime`: `let stopTime` starts undefined on
      every move. */
  lemma MoveAfterSolvingClearsStopTime(state: PuzzleState, target: Square, rules: SanRules, now: int)
    requires WellFormed(state) && state.nextSquareIndex == |TargetSquares()|
    requires Accepted(state, target, rules)
    ensures Reducer(state, PlaceKnight(target), rules, now).nextSquareIndex == |TargetSquares()|
    ensures Reducer(state, PlaceKnight(target), rules, now).stopTime == None
  {}

  /** Placing the knight on each of `squares` in turn, at the given times. */
  function Replay(state: PuzzleState, squares: seq<Square>, times: seq<int>, rules: SanRules): (r: PuzzleState)
    requires |squares| == |times|
    decreases |squares|
  {
    if squares == [] then state
    else Replay(Reducer(state, PlaceKnight(squares[0]), rules, times[0]), squares[1..], times[1..], rules)
  }

  /** Placing the knight on the next target, when chess.js allows it,
      advances the cursor by one and stops the clock exactly at the end. */
  lemma AdvanceStep(state: PuzzleState, rules: SanRules, now: int)
    requires WellFormed(state) && state.nextSquareIndex < |TargetSquares()|
    requires rules(state.position, TargetSquares()[state.nextSquareIndex]).Some?
    ensures var next := Reducer(state, PlaceKnight(TargetSquares()[state.nextSquareIndex]), rules, now);
      && WellFormed(next)
      && next.nextSquareIndex == state.nextSquareIndex + 1
      && next.startTime == (if state.startTime.Some? then state.startTime else Some(now))
      && next.stopTime == (if next.nextSquareIndex == |TargetSquares()| then Some(now) else None)
  {
    var square := TargetSquares()[state.nextSquareIndex];
    assert square in TargetSquares();
    TargetSquaresExactly();
    AcceptedMove(state, square, rules, now);
    ReducerKeepsWellFormed(state, PlaceKnight(square), rules, now);
  }

  /** How many of `targets` the squares of `play` meet in order: a square
      counts when it is the first target not met yet, any other square is
      passed over. */
  function Matched(targets: seq<Square>, play: seq<Square>): (n: nat)
    ensures n <= |targets| && n <= |play|
    decreases |play|
  {
    if play == [] then 0
    else if targets != [] && play[0] == targets[0] then 1 + Matched(targets[1..], play[1..])
    else Matched(targets, play[1..])
  }

  /** Playing the targets themselves meets every one of them. */
  lemma {:induction false} MatchedPrefix(targets: seq<Square>, j: nat)
    requires j <= |targets|
    ensures Matched(targets, targets[..j]) == j
    decreases j
  {
    if j > 0 {
      assert targets[..j][0] == targets[0];
      assert targets[..j][1..] == targets[1..][..j - 1];
      MatchedPrefix(targets[1..], j - 1);
    }
  }

  /** Every move of `play`, made at `times`, is one chess.js allows from the
      position reached so far and is not cheating. */
  predicate AllAccepted(state: PuzzleState, play: seq<Square>, times: seq<int>, rules: SanRules)
    requires |play| == |times|
    decreases |play|
  {
    play == [] ||
    (Accepted(state, play[0], rules) &&
     AllAccepted(Reducer(state, PlaceKnight(play[0]), rules, times[0]), play[1..], times[1..], rules))
  }

  /** `play` without its last move. */
  function Init(play: seq<Square>): (r: seq<Square>)
    requires play != []
    ensures |r| == |play| - 1 && r == play[..|play| - 1]
  {
    play[..|play| - 1]
  }

  /** One step of `Matched`, on a suffix `t[k..]` of a target list. */
  lemma MatchedStep(t: seq<Square>, k: nat, play: seq<Square>)
    requires k <= |t| && play != []
    ensures Matched(t[k..], play) ==
      (if k < |t| && play[0] == t[k] then 1 + Matched(t[k + 1..], play[1..]) else Matched(t[k..], play[1..]))
  {
    if k < |t| {
      assert t[k..][0] == t[k] && t[k..][1..] == t[k + 1..];
    }
  }

  /** An accepted move moves the cursor on exactly at the square it points
      at. */
  lemma CursorStep(state: PuzzleState, target: Square, rules: SanRules, now: int)
    requires Accepted(state, target, rules)
    ensures var k := state.nextSquareIndex;
      Reducer(state, PlaceKnight(target), rules, now).nextSquareIndex ==
        (if k < |TargetSquares()| && target == TargetSquares()[k] then k + 1 else k)
  {}

  /** An accepted move keeps or starts the clock, and any stop time it
      leaves is `now`. */
  lemma ClockStep(state: PuzzleState, target: Square, rules: SanRules, now: int)
    requires Accepted(state, target, rules)
    ensures var next := Reducer(state, PlaceKnight(target), rules, now);
      && next.startTime == (if state.startTime.Some? then state.startTime else Some(now))
      && (next.stopTime.Some? ==> next.stopTime == Some(now))
  {}

  /** An accepted move leaves a stop time exactly when it meets the last
      target. */
  lemma StopStep(state: PuzzleState, target: Square, rules: SanRules, now: int)
    requires Accepted(state, target, rules)
    ensures var k := state.nextSquareIndex;
      Reducer(state, PlaceKnight(target), rules, now).stopTime.Some? <==>
        k < |TargetSquares()| && target == TargetSquares()[k] && k + 1 == |TargetSquares()|
  {}

  /** Where a cursor at `k` into `t` ends after `play`, moving on
      whenever a square is the one it points at. */
  function Cursor(t: seq<Square>, k: nat, play: seq<Square>): (c: nat)
    requires k <= |t|
    ensures k <= c <= |t|
    decreases |play|
  {
    if play == [] then k
    else Cursor(t, if k < |t| && play[0] == t[k] then k + 1 else k, play[1..])
  }

  /** The cursor moves on by the number of targets met in order. */
  lemma {:induction false} CursorIsMatched(t: seq<Square>, k: nat, play: seq<Square>)
    requires k <= |t|
    ensures Cursor(t, k, play) == k + Matched(t[k..], play)
    decreases |play|
  {
    if play != [] {
      MatchedStep(t, k, play);
      CursorIsMatched(t, if k < |t| && play[0] == t[k] then k + 1 else k, play[1..]);
    }
  }

  /** Any game of accepted moves leaves the cursor where `Cursor` says. */
  lemma {:induction false} ReplayCursor(state: PuzzleState, play: seq<Square>, times: seq<int>, rules: SanRules)
    requires state.nextSquareIndex <= |TargetSquares()| && |play| == |times|
    requires AllAccepted(state, play, times, rules)
    ensures Replay(state, play, times, rules).nextSquareIndex == Cursor(TargetSquares(), state.nextSquareIndex, play)
    decreases |play|
  {
    if play != [] {
      CursorStep(state, play[0], rules, times[0]);
      ReplayCursor(Reducer(state, PlaceKnight(play[0]), rules, times[0]), play[1..], times[1..], rules);
    }
  }

  /** Any game of accepted moves keeps the start time, or starts the clock
      at its first move. */
  lemma {:induction false} ReplayStartTime(state: PuzzleState, play: seq<Square>, times: seq<int>, rules: SanRules)
    requires |play| == |times| && play != []
    requires AllAccepted(state, play, times, rules)
    ensures Replay(state, play, times, rules).startTime ==
      (if state.startTime.Some? then state.startTime else Some(times[0]))
    decreases |play|
  {
    ClockStep(state, play[0], rules, times[0]);
    if |play| > 1 {
      ReplayStartTime(Reducer(state, PlaceKnight(play[0]), rules, times[0]), play[1..], times[1..], rules);
    }
  }

  /** Any game of accepted moves: the cursor moves on by the number of
      remaining targets the moves meet in order, and the clock starts at
      the first move. */
  lemma ReplayCountsMatched(state: PuzzleState, play: seq<Square>, times: seq<int>, rules: SanRules)
    requires state.nextSquareIndex <= |TargetSquares()| && |play| == |times|
    requires AllAccepted(state, play, times, rules)
    ensures var last := Replay(state, play, times, rules);
      && last.nextSquareIndex == state.nextSquareIndex + Matched(TargetSquares()[state.nextSquareIndex..], play)
      && (play != [] ==> last.startTime == (if state.startTime.Some? then state.startTime else Some(times[0])))
  {
    ReplayCursor(state, play, times, rules);
    CursorIsMatched(TargetSquares(), state.nextSquareIndex, play);
    if play != [] {
      ReplayStartTime(state, play, times, rules);
    }
  }

  /** Any game, accepted moves or not, ends in a well-formed state. */
  lemma {:induction false} ReplayKeepsWellFormed(state: PuzzleState, play: seq<Square>, times: seq<int>, rules: SanRules)
    requires WellFormed(state) && |play| == |times|
    ensures WellFormed(Replay(state, play, times, rules))
    decreases |play|
  {
    if play != [] {
      ReducerKeepsWellFormed(state, PlaceKnight(play[0]), rules, times[0]);
      ReplayKeepsWellFormed(Reducer(state, PlaceKnight(play[0]), rules, times[0]), play[1..], times[1..], rules);
    }
  }

  /** The cursor after all of `play` but its last move, one step in. */
  lemma CursorInitStep(t: seq<Square>, k: nat, play: seq<Square>)
    requires k <= |t| && |play| > 1
    ensures Cursor(t, k, Init(play)) == Cursor(t, if k < |t| && play[0] == t[k] then k + 1 else k, Init(play[1..]))
  {
    var init := Init(play);
    assert init[0] == play[0] && init[1..] == Init(play[1..]);
  }

  /** When a game of accepted moves shows a stop time, it is the last
      move's time. */
  lemma {:induction false} ReplayStopStamp(state: PuzzleState, play: seq<Square>, times: seq<int>, rules: SanRules)
    requires |play| == |times| && play != []
    requires AllAccepted(state, play, times, rules)
    ensures Replay(state, play, times, rules).stopTime.Some? ==>
      Replay(state, play, times, rules).stopTime == Some(times[|times| - 1])
    decreases |play|
  {
    ClockStep(state, play[0], rules, times[0]);
    if |play| > 1 {
      ReplayStopStamp(Reducer(state, PlaceKnight(play[0]), rules, times[0]), play[1..], times[1..], rules);
    }
  }

  /** Whether the last square of `play` is the one that takes a cursor at
      `k` into `t` to the end. */
  function LastMeetsEnd(t: seq<Square>, k: nat, play: seq<Square>): bool
    requires k <= |t| && play != []
    decreases |play|
  {
    var advances := k < |t| && play[0] == t[k];
    if |play| == 1 then advances && k + 1 == |t|
    else LastMeetsEnd(t, if advances then k + 1 else k, play[1..])
  }

  /** The last square meets the end exactly when the whole of `play` takes
      the cursor to the end and `play` without it does not. */
  lemma {:induction false} LastMeetsEndIff(t: seq<Square>, k: nat, play: seq<Square>)
    requires k <= |t| && play != []
    ensures LastMeetsEnd(t, k, play) <==> Cursor(t, k, play) == |t| && Cursor(t, k, Init(play)) < |t|
    decreases |play|
  {
    if |play| > 1 {
      CursorInitStep(t, k, play);
      LastMeetsEndIff(t, if k < |t| && play[0] == t[k] then k + 1 else k, play[1..]);
    } else {
      assert play[1..] == [] && Init(play) == [];
    }
  }

  /** A game of accepted moves ends with a stop time exactly when its last
      move takes the cursor to the end of the list. */
  lemma {:induction false} ReplayStopCursor(state: PuzzleState, play: seq<Square>, times: seq<int>, rules: SanRules)
    requires state.nextSquareIndex <= |TargetSquares()| && |play| == |times| && play != []
    requires AllAccepted(state, play, times, rules)
    ensures Replay(state, play, times, rules).stopTime.Some? <==>
      LastMeetsEnd(TargetSquares(), state.nextSquareIndex, play)
    decreases |play|
  {
    var next := Reducer(state, PlaceKnight(play[0]), rules, times[0]);
    CursorStep(state, play[0], rules, times[0]);
    StopStep(state, play[0], rules, times[0]);
    if |play| > 1 {
      ReplayStopCursor(next, play[1..], times[1..], rules);
      assert LastMeetsEnd(TargetSquares(), state.nextSquareIndex, play) ==
             LastMeetsEnd(TargetSquares(), next.nextSquareIndex, play[1..]);
    } else {
      assert Replay(state, play, times, rules) == next;
    }
  }

  /** In a game of accepted moves the clock shows a stop time exactly when
      the last move is the one that met the last target, and the stop time
      is that move's time. */
  lemma ReplayStopTime(state: PuzzleState, play: seq<Square>, times: seq<int>, rules: SanRules)
    requires state.nextSquareIndex <= |TargetSquares()| && |play| == |times| && play != []
    requires AllAccepted(state, play, times, rules)
    ensures var last := Replay(state, play, times, rules);
      var rest := TargetSquares()[state.nextSquareIndex..];
      && (last.stopTime.Some? <==> Matched(rest, play) == |rest| && Matched(rest, Init(play)) < |rest|)
      && (last.stopTime.Some? ==> last.stopTime == Some(times[|times| - 1]))
  {
    ReplayStopCursor(state, play, times, rules);
    LastMeetsEndIff(TargetSquares(), state.nextSquareIndex, play);
    ReplayStopStamp(state, play, times, rules);
    CursorIsMatched(TargetSquares(), state.nextSquareIndex, play);
    CursorIsMatched(TargetSquares(), state.nextSquareIndex, Init(play));
  }

  /** A game of accepted moves solves the puzzle exactly when its moves meet
      every remaining target in order. */
  lemma SolvedIffAllMatched(state: PuzzleState, play: seq<Square>, times: seq<int>, rules: SanRules)
    requires state.nextSquareIndex <= |TargetSquares()| && |play| == |times|
    requires AllAccepted(state, play, times, rules)
    ensures Replay(state, play, times, rules).nextSquareIndex == |TargetSquares()| <==>
            Matched(TargetSquares()[state.nextSquareIndex..], play) == |TargetSquares()| - state.nextSquareIndex
  {
    ReplayCountsMatched(state, play, times, rules);
  }

  /** Visiting the remaining targets in order, with nothing in between and
      every move accepted, reaches the end of the list and stops the clock
      at the last move. */
  lemma {:induction false} VisitingTheTargetsSolves(state: PuzzleState, times: seq<int>, rules: SanRules)
    requires WellFormed(state)
    requires |times| == |TargetSquares()| - state.nextSquareIndex > 0
    requires AllAccepted(state, TargetSquares()[state.nextSquareIndex..], times, rules)
    ensures var last := Replay(state, TargetSquares()[state.nextSquareIndex..], times, rules);
      && WellFormed(last)
      && last.nextSquareIndex == |TargetSquares()|
      && last.stopTime == Some(times[|times| - 1])
      && last.startTime == (if state.startTime.Some? then state.startTime else Some(times[0]))
  {
    var rest := TargetSquares()[state.nextSquareIndex..];
    ReplayKeepsWellFormed(state, rest, times, rules);
    ReplayCountsMatched(state, rest, times, rules);
    ReplayStopTime(state, rest, times, rules);
    assert rest[..|rest|] == rest;
    MatchedPrefix(rest, |rest|);
    MatchedPrefix(rest, |rest| - 1);
  }

  /** The opening move the tour needs: f8 is not a knight's move from h8,
      so the knight first goes to g6, which is no target yet; the cursor
      stays on f8 and the clock starts. */
  lemma OpeningToG6(rules: SanRules, now: int)
    requires rules(StartingPosition, Square('g', '6')).Some?
    ensures var s := Reducer(InitialState(), PlaceKnight(Square('g', '6')), rules, now);
      && s.position == ResetTurn(rules(StartingPosition, Square('g', '6')).value, "w")
      && s.nextSquareIndex == 1
      && s.nextSquare == Some(Square('f', '8'))
      && s.startTime == Some(now)
      && s.stopTime == None
  {
    assert !IsCheating(Square('g', '6'));
  }

  /** h8 to f7 is a knight's move, but the queen on d5 guards f7: the move
      is cheating and leaves the starting state, clock unstarted, whatever
      chess.js says of it. */
  lemma CheatingOpening(rules: SanRules, now: int)
    ensures IsCheating(Square('f', '7'))
    ensures Reducer(InitialState(), PlaceKnight(Square('f', '7')), rules, now) == InitialState()
  {
    assert Square('f', '7') in AttackedByQueenSquares;
  }

  /** The tour's opening, h8 to g6 to f8: two accepted moves meet one
      target, so e8 becomes the next target and the clock runs from the
      first move. */
  lemma OpeningTour(t0: int, t1: int, rules: SanRules)
    requires AllAccepted(InitialState(), [Square('g', '6'), Square('f', '8')], [t0, t1], rules)
    ensures var s := Replay(InitialState(), [Square('g', '6'), Square('f', '8')], [t0, t1], rules);
      && s.nextSquareIndex == 2
      && s.nextSquare == Some(Square('e', '8'))
      && s.startTime == Some(t0)
      && s.stopTime == None
  {
    var play := [Square('g', '6'), Square('f', '8')];
    var rest := TargetSquares()[1..];
    InitialStateWellFormed();
    ReplayCountsMatched(InitialState(), play, [t0, t1], rules);
    assert rest[0] == Square('f', '8');
    assert play[1..][1..] == [];
    assert Matched(rest, play) == 1;
  }

  /** `usePuzzle`: the chess.js board in `chessRef` and the state React
      keeps for `useReducer`. */
  class PuzzleHook {
    const chess: Chess
    var state: PuzzleState

    /** The board shows the state's position with an empty undo stack, and
        the state is one the reducer can produce. */
    predicate Valid()
      reads this, chess
    {
      chess.fen == state.position && chess.history == [] && WellFormed(state)
    }

    constructor ()
      ensures Valid() && state == InitialState() && fresh(chess)
    {
      chess := new Chess(StartingPosition);
      state := InitialState();
      new;
      InitialStateWellFormed();
    }

    /** `dispatch(action)`: runs the reducer on the board and stores the
        state it returns. */
    method Dispatch(action: Action, rules: SanRules, now: int) returns (next: PuzzleState)
      requires Valid()
      modifies this, chess
      ensures Valid()
      ensures next == Reducer(old(state), action, rules, now) && state == next
    {
      ReducerKeepsWellFormed(state, action, rules, now);
      match action {
      case PlaceKnight(targetSquare) =>
        var knightMove := chess.MoveKnight(rules, targetSquare);
        var isCheating := targetSquare == QueenSquare || targetSquare in AttackedByQueenSquares;
        if knightMove && !isCheating {
          var newPosition := ResetTurn(chess.fen, "w");
          var startTime := if state.startTime.Some? then state.startTime else Some(now);
          var stopTime: Option<int> := None;
          var nextSquareIndex := state.nextSquareIndex;
          if Lookup(TargetSquares(), state.nextSquareIndex) == Some(targetSquare) {
            nextSquareIndex := nextSquareIndex + 1;
            if nextSquareIndex == |TargetSquares()| {
              stopTime := Some(now);
            }
          }
          chess.Load(newPosition);
          next := PuzzleState(newPosition, nextSquareIndex, Progress(nextSquareIndex),
                              Lookup(TargetSquares(), nextSquareIndex), startTime, stopTime);
        } else {
          chess.Undo();
          next := state;
        }
      case ResetGame =>
        chess.Load(StartingPosition);
        next := InitialState();
      }
      state := next;
    }
  }
}
