/** `App.tsx`, the component the page mounts: its own copy of the target
    list and of the cheat rule, and the `onDrop` and `reset` transitions
    over its React state cells and the chess.js board. Its `resetTurn`,
    `padTime`, `formatTime` and `Timer` component behave as the ones in
    `usePuzzle` and `useTimer` do and are modelled once, in `Fen` and
    `Timer`. */
module App {
  import opened Wrappers
  import opened Squares
  import opened Fen
  import opened ChessAdapter
  import opened Puzzle

  /** App's `attackedByQueenSquares`: it lists d5, four times, besides the
      squares the queen attacks. */
  const AppAttackedSquares: set<Square> := {
    Square('d', '8'), Square('d', '7'), Square('d', '6'), Square('d', '5'),
    Square('d', '4'), Square('d', '3'), Square('d', '2'), Square('d', '1'),
    Square('g', '8'), Square('f', '7'), Square('e', '6'), Square('d', '5'),
    Square('c', '4'), Square('b', '3'), Square('a', '2'),
    Square('h', '5'), Square('g', '5'), Square('f', '5'), Square('e', '5'),
    Square('d', '5'), Square('c', '5'), Square('b', '5'), Square('a', '5'),
    Square('h', '1'), Square('g', '2'), Square('f', '3'), Square('e', '4'),
    Square('d', '5'), Square('c', '6'), Square('b', '7'), Square('a', '8')
  }

  /** App's filter: only membership in its set is tested. */
  predicate IsAppTarget(s: Square) {
    s !in AppAttackedSquares
  }

  /** App's `targetSquares`: the enumeration filtered by `IsAppTarget`. */
  function AppTargetSquares(): seq<Square> {
    Filter(AllSquares(), IsAppTarget)
  }

  /** The duplicates collapse: App's set is the other set plus the queen's
      own square. */
  lemma AppAttackedSquaresCollapse()
    ensures AppAttackedSquares == AttackedByQueenSquares + {QueenSquare}
    ensures QueenSquare in AppAttackedSquares && QueenSquare !in AttackedByQueenSquares
  {}

  /** So testing App's set alone is the same test as the `usePuzzle` filter. */
  lemma AppTargetIffTarget(s: Square)
    ensures IsAppTarget(s) <==> IsTarget(s)
  {
    AppAttackedSquaresCollapse();
  }

  /** App's target list is the `usePuzzle` list, same squares, same order.
      The transitions below therefore index `TargetSquares()`. */
  lemma AppTargetSquaresAgree()
    ensures AppTargetSquares() == TargetSquares()
  {
    var all := AllSquares();
    forall k | 0 <= k < |all|
      ensures IsAppTarget(all[k]) == IsTarget(all[k])
    {
      AppTargetIffTarget(all[k]);
    }
    FilterAgree(all, IsAppTarget, IsTarget);
    TargetSquaresIsFilter();
  }

  /** `isCheating` in `onDrop`. */
  predicate IsAppCheating(target: Square) {
    target == QueenSquare || target in AppAttackedSquares
  }

  /** App cheats on the same squares as the reducer. */
  lemma AppCheatingAgrees(target: Square)
    ensures IsAppCheating(target) <==> IsCheating(target)
  {
    AppAttackedSquaresCollapse();
  }

  /** The five state cells of `App`; a `Date` is its time in milliseconds. */
  datatype AppState = AppState(
    position: string,
    victory: bool,
    nextSquareIndex: nat,
    startTime: Option<int>,
    stopTime: Option<int>)

  /** The cells' initial values; `reset` restores them. */
  function InitialAppState(): AppState {
    AppState(StartingPosition, false, 1, None, None)
  }

  /** What every state `onDrop` and `reset` produce satisfies. */
  predicate AppWellFormed(s: AppState) {
    && 1 <= s.nextSquareIndex <= |TargetSquares()|
    && (s.startTime.None? ==> s.nextSquareIndex == 1 && s.stopTime.None? && !s.victory)
    && (s.victory <==> s.stopTime.Some?)
    && (s.victory ==> s.nextSquareIndex >= |TargetSquares()| - 1)
  }

  /** Whether dropping the piece from `from` on `to` is kept: chess.js
      makes the move and it is not cheating. */
  predicate DropAccepted(s: AppState, from: Square, to: Square, rules: DropRules) {
    rules(s.position, from, to).Some? && !IsAppCheating(to)
  }

  /** The cells after `onDrop({ sourceSquare: from, targetSquare: to })`,
      reading the current cursor; `now` is `new Date()`. */
  function Drop(s: AppState, from: Square, to: Square, rules: DropRules, now: int): (r: AppState) {
    var knightMove := rules(s.position, from, to);
    if knightMove.Some? && !IsAppCheating(to) then
      var atLast := s.nextSquareIndex == |TargetSquares()| - 1;
      var advances := Lookup(TargetSquares(), s.nextSquareIndex) == Some(to);
      AppState(
        ResetTurn(knightMove.value, "w"),
        if atLast then true else s.victory,
        if advances then s.nextSquareIndex + 1 else s.nextSquareIndex,
        if s.startTime.None? then Some(now) else s.startTime,
        if atLast then Some(now) else s.stopTime)
    else
      s
  }

  lemma InitialAppStateWellFormed()
    ensures AppWellFormed(InitialAppState())
    ensures InitialAppState().nextSquareIndex == 1 && !InitialAppState().victory
  {}

  /** A drop chess.js rejects, or a cheating one, changes no cell. */
  lemma RejectedDropKeepsState(s: AppState, from: Square, to: Square, rules: DropRules, now: int)
    requires !DropAccepted(s, from, to, rules)
    ensures Drop(s, from, to, rules, now) == s
  {}

  /** What a kept drop does to each cell. */
  lemma AcceptedDrop(s: AppState, from: Square, to: Square, rules: DropRules, now: int)
    requires AppWellFormed(s)
    requires DropAccepted(s, from, to, rules)
    ensures var next := Drop(s, from, to, rules, now);
      var advances := s.nextSquareIndex < |TargetSquares()| && to == TargetSquares()[s.nextSquareIndex];
      && (OnBoard(to) ==> to in TargetSquares())
      && next.position == ResetTurn(rules(s.position, from, to).value, "w")
      && next.nextSquareIndex == (if advances then s.nextSquareIndex + 1 else s.nextSquareIndex)
      && next.startTime == (if s.startTime.Some? then s.startTime else Some(now))
      && (s.nextSquareIndex == |TargetSquares()| - 1 ==> next.victory && next.stopTime == Some(now))
      && (s.nextSquareIndex != |TargetSquares()| - 1 ==> next.victory == s.victory && next.stopTime == s.stopTime)
  {
    if OnBoard(to) {
      AppCheatingAgrees(to);
      CheatingIffNotTarget(to);
    }
  }

  /** Every kept drop keeps the cells well formed. */
  lemma DropKeepsWellFormed(s: AppState, from: Square, to: Square, rules: DropRules, now: int)
    requires AppWellFormed(s)
    ensures AppWellFormed(Drop(s, from, to, rules, now))
  {
    if DropAccepted(s, from, to, rules) {
      AcceptedDrop(s, from, to, rules, now);
    }
  }

  /** App's victory rule: any kept drop made while the cursor is on the last
      target wins and re-stamps the stop time, wherever the knight lands. */
  lemma VictoryOnAnyDropAtLastTarget(s: AppState, from: Square, to: Square, rules: DropRules, now: int)
    requires AppWellFormed(s) && s.nextSquareIndex == |TargetSquares()| - 1
    requires DropAccepted(s, from, to, rules)
    ensures Drop(s, from, to, rules, now).victory
    ensures Drop(s, from, to, rules, now).stopTime == Some(now)
  {}

  /** From matching states and matching chess.js answers, a drop does what
      the reducer does to the position, the cursor and the start time, and,
      before the last target, to the stop time as well. */
  lemma DropAgreesWithReducer(s: AppState, p: PuzzleState, from: Square, to: Square,
                              drop: DropRules, san: SanRules, now: int)
    requires AppWellFormed(s) && WellFormed(p)
    requires s.position == p.position && s.nextSquareIndex == p.nextSquareIndex && s.startTime == p.startTime
    requires drop(s.position, from, to) == san(p.position, to)
    ensures var a := Drop(s, from, to, drop, now);
      var r := Reducer(p, PlaceKnight(to), san, now);
      a.position == r.position && a.nextSquareIndex == r.nextSquareIndex && a.startTime == r.startTime
    ensures s.nextSquareIndex < |TargetSquares()| - 1 && s.stopTime.None? ==>
      Drop(s, from, to, drop, now).stopTime == Reducer(p, PlaceKnight(to), san, now).stopTime
  {
    AppCheatingAgrees(to);
  }

  /** At the last target a kept drop off the list's last square wins in
      App, while the reducer's state stays unsolved. */
  lemma VictoryRulesDiffer(s: AppState, p: PuzzleState, from: Square, to: Square,
                           drop: DropRules, san: SanRules, now: int)
    requires AppWellFormed(s) && WellFormed(p)
    requires s.nextSquareIndex == p.nextSquareIndex == |TargetSquares()| - 1
    requires to != TargetSquares()[|TargetSquares()| - 1]
    requires DropAccepted(s, from, to, drop) && Accepted(p, to, san)
    ensures Drop(s, from, to, drop, now).victory
    ensures Reducer(p, PlaceKnight(to), san, now).stopTime == None
    ensures Reducer(p, PlaceKnight(to), san, now).nextSquareIndex == |TargetSquares()| - 1
  {
    AcceptedMove(p, to, san, now);
  }

  /** `App`: the chess.js board in `chessRef` and the five state cells. */
  class AppComponent {
    const chess: Chess
    var position: string
    var victory: bool
    var nextSquareIndex: nat
    var startTime: Option<int>
    var stopTime: Option<int>

    /** The cells, as one value. */
    function State(): AppState
      reads this
    {
      AppState(position, victory, nextSquareIndex, startTime, stopTime)
    }

    /** The board shows `position` with an empty undo stack, and the cells
        are ones `onDrop` and `reset` can produce. */
    predicate Valid()
      reads this, chess
    {
      chess.fen == position && chess.history == [] && AppWellFormed(State())
    }

    constructor ()
      ensures Valid() && State() == InitialAppState() && fresh(chess)
    {
      chess := new Chess(StartingPosition);
      position := StartingPosition;
      victory := false;
      nextSquareIndex := 1;
      startTime := None;
      stopTime := None;
    }

    /** `onDrop`: tries the move on the board, takes it back when it is
        rejected or cheating, and otherwise updates the cells; the effect on
        `position` then loads the new position into the board. */
    method OnDrop(sourceSquare: Square, targetSquare: Square, rules: DropRules, now: int)
      requires Valid()
      modifies this, chess
      ensures Valid()
      ensures State() == Drop(old(State()), sourceSquare, targetSquare, rules, now)
    {
      DropKeepsWellFormed(State(), sourceSquare, targetSquare, rules, now);
      ghost var expected := Drop(State(), sourceSquare, targetSquare, rules, now);
      var knightMove := chess.MoveFromTo(rules, sourceSquare, targetSquare);
      var isCapturingQueen := targetSquare == QueenSquare;
      var canBeCapturedByQueen := targetSquare in AppAttackedSquares;
      var isCheating := isCapturingQueen || canBeCapturedByQueen;
      if knightMove && !isCheating {
        if nextSquareIndex == |TargetSquares()| - 1 {
          victory := true;
          stopTime := Some(now);
        }
        if Lookup(TargetSquares(), nextSquareIndex) == Some(targetSquare) {
          nextSquareIndex := nextSquareIndex + 1;
        }
        position := ResetTurn(chess.fen, "w");
        if startTime.None? {
          startTime := Some(now);
        }
        chess.Load(position);
      } else {
        chess.Undo();
      }
      assert State() == expected;
    }

    /** `reset`: the initial cells, whatever came before; the effect on
        `position` reloads the board when the position changed. */
    method Reset()
      requires Valid()
      modifies this, chess
      ensures Valid()
      ensures State() == InitialAppState()
    {
      if position != StartingPosition {
        chess.Load(StartingPosition);
      }
      position := StartingPosition;
      nextSquareIndex := 1;
      startTime := None;
      stopTime := None;
      victory := false;
    }
  }
}
