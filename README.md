# Knight moves: a Dafny model of the puzzle's state machine

The puzzle puts a white knight on h8 and a black queen on d5. The player
must walk the knight over every square the queen neither occupies nor
attacks. The order is rank 8 down to rank 1, and within a rank file h
down to file a. The clock starts on the first accepted move and stops
on the last one. This project models, in Dafny:

- the target list, the cheat rule, the `PuzzleState` record and the
  reducer of `usePuzzle`, together with the chess.js board the reducer
  keeps in step (module `Puzzle`);
- `resetTurn`, the FEN rewrite that hands the move back to White
  (module `Fen`);
- `padTime`, `formatTime`, the elapsed-time rule and the displayed
  string of `useTimer` (module `Timer`);
- the inline copy of the same logic in `App.tsx`, the component the page
  mounts: its own queen set and target list, and its `onDrop`/`reset`
  transitions over five React state cells (module `App`).

Supporting modules are `Wrappers` (`Option`), `Text` (decimal digits,
`split`, `join`) and `Squares` (the 64-square enumeration and the list
filter). chess.js is `ChessAdapter.Chess`, a class holding the current
FEN and the undo stack. Which moves chess.js accepts is not modelled: it
comes in as a function parameter (`SanRules` for `chess.move("Nf8")`,
`DropRules` for `chess.move({from, to})`). The wall clock comes in as a
`now: int` parameter in milliseconds. An optional `Date` is an
`Option<int>`.

The `usePuzzle` reducer is a function, `Puzzle.Reducer`.
`Puzzle.PuzzleHook.Dispatch` runs it against the shared board: it
moves the knight, then loads the new position or undoes the move. It is
proved to return `Reducer`'s result and to leave the board on that
result's position with an empty undo stack. `App.AppComponent` has the
same board guarantee for `onDrop` and `reset`. `OnDrop` is proved to
produce the cells `App.Drop` computes, and `Reset` the cells
`App.InitialAppState` gives.

`App.tsx` has its own `resetTurn`, `padTime`, `formatTime` and timer.
They behave identically to the ones in `usePuzzle.ts` and `useTimer.ts`,
so they are modelled once, and the rows below cite the hook files. The
copies in `App.tsx` differ in form only:

- `resetTurn` (src/components/App.tsx:49-59) names all six destructured
  fields (`_activeColor`, `halfmove` and `fullmove` included) and types
  `color` as `string`. `usePuzzle.ts` leaves holes in the pattern and
  types `color` as `"w" | "b"`
  (src/hooks/usePuzzle.ts:45-48). Both return the same join.
- `padTime` (66-69) and `formatTime` (71-77) are the same statements.
- The timer (79-104) is a component `Timer({ startTime, stopTime })`
  that renders `<>{startTime ? time : ""}</>`, not a hook returning the
  string. Its `updateCount`, its interval and its empty-string rule are
  those of `useTimer`.

`App.tsx`'s `onDrop` keeps the stop time until reset: it only re-stamps
it (src/components/App.tsx:208-211), and only `reset` clears it
(235-241). The reducer does otherwise, and each is modelled as written
(`App.VictoryOnAnyDropAtLastTarget` for the first). The reducer declares `let stopTime` afresh on every
move. So an accepted move made after the puzzle is solved drops the stop
time again (`Puzzle.MoveAfterSolvingClearsStopTime`). The timer then has
a start time and no stop time, so it resumes counting from `now`
(`Timer.Elapsed`).

A real tour cannot visit the targets back to back: f8 is not a knight's
move from h8, so the knight first goes to g6, which is not the next
target. `Puzzle.ReplayCountsMatched` covers such games. For any sequence
of accepted moves, the cursor moves on by `Puzzle.Matched`, the number of
remaining targets the moves meet in order. Moves that are not the next
target are passed over.

`formatTime` uses JavaScript's `%`, whose remainder takes the sign of
the dividend, and two divisions that the code relies on being exact.
These are `Timer.JsRem60` and `Timer.ExactDiv`, so `Timer.Decompose`
is defined for negative times too. `Math.round(ms / 1000)` is
`(ms + 500) div 1000` for whole milliseconds (`Timer.RoundSeconds`).
The reverse direction of `formatTime` is `Timer.ParseClock`, which
reads `M:SS` or `H:MM:SS` back as a number of seconds.

## Model

| member | source | states |
|---|---|---|
| Wrappers.Lookup | src/hooks/usePuzzle.ts:74 | reading `targetSquares[i]`: a value exactly when i is within the array, and then the element at i; `undefined` otherwise, as at cursor 36 (also usePuzzle.ts:97, 111 and App.tsx:213) |
| Squares.Row | src/hooks/usePuzzle.ts:37 | the inner `map` over the files has one square per file, square k being file k on `rank` |
| Squares.Board | src/hooks/usePuzzle.ts:35-38 | no contract of its own; the map over the ranks concatenated by `reduce`, described by `Squares.AllSquaresIsBoard` |
| Squares.AllSquares | src/hooks/usePuzzle.ts:35-38 | no contract of its own; the 64-square enumeration in closed form, shown equal to the map/reduce by `Squares.AllSquaresIsBoard` and described by `Squares.AllSquaresSpec` |
| Squares.AllSquaresIsBoard | src/hooks/usePuzzle.ts:35-38 | the map/reduce over "87654321" and "hgfedcba" yields the 64 squares, square `i` being file `h - i%8` on rank `8 - i/8` |
| Squares.AllSquaresSpec | src/hooks/usePuzzle.ts:35-38 | the enumeration holds every board square exactly once, in strictly increasing board order |
| Squares.Filter | src/hooks/usePuzzle.ts:39-41 | `filter` never returns more elements than it is given; what it keeps and in which order is stated by `Squares.FilterMembers`, `Squares.FilterIncreasing` and `Squares.FilterOfBoard` |
| Squares.FilterMembers | src/hooks/usePuzzle.ts:39-41 | `filter` keeps exactly the elements the predicate accepts |
| Squares.FilterIncreasing | src/hooks/usePuzzle.ts:39-41 | on an increasing input, what the filter keeps is increasing |
| Squares.FilterOfBoard | src/hooks/usePuzzle.ts:35-41 | a filter of the enumeration holds exactly the board squares the predicate accepts, in enumeration order |
| Squares.FilterAgree | src/components/App.tsx:40-44 | two filters whose predicates agree on every element give the same list |
| Puzzle.IsTarget | src/hooks/usePuzzle.ts:40 | no contract of its own; the filter's predicate `square !== queenSquare && !attackedByQueenSquares.has(square)`, described by `Puzzle.TargetSquaresIsFilter` and `Puzzle.TargetSquaresExactly` |
| Puzzle.TargetSquares | src/hooks/usePuzzle.ts:35-41 | no contract of its own; `targetSquares` written out rank by rank, shown to be the source's filter by `Puzzle.TargetSquaresIsFilter` and described by `Puzzle.TargetSquaresExactly` and `Puzzle.TargetSquaresShape` |
| Puzzle.IsCheating | src/hooks/usePuzzle.ts:87-89 | no contract of its own; `isCapturingQueen` or `canBeCapturedByQueen`, described by `Puzzle.CheatingIffNotTarget` |
| Puzzle.TargetSquaresIsFilter | src/hooks/usePuzzle.ts:35-41 | the target list, written out rank by rank, is the filter of the enumeration by "not d5 and not attacked" |
| Puzzle.TargetSquaresExactly | src/hooks/usePuzzle.ts:4-41 | a square is a target exactly when it is on the board, is not d5 and is not attacked by the queen; the list is in enumeration order |
| Puzzle.TargetSquaresShape | src/hooks/usePuzzle.ts:35-41 | 36 targets; entry 0 is h8, the knight's start, entry 1 is f8, entry 35 is a1 |
| Puzzle.CheatingIffNotTarget | src/hooks/usePuzzle.ts:87-89 | on the board, a move cheats exactly when its square is not a target |
| Puzzle.Progress | src/hooks/usePuzzle.ts:110 | no contract of its own; `nextSquareIndex / targetSquares.length` as an exact ratio (also usePuzzle.ts:75), tied to the cursor by `Puzzle.ReducerKeepsWellFormed` |
| Puzzle.Accepted | src/hooks/usePuzzle.ts:86-91 | no contract of its own; the accept condition `knightMove && !isCheating`, used by `Puzzle.AcceptedMove`, `Puzzle.RejectedMoveKeepsState` and `Puzzle.AllAccepted` |
| Puzzle.InitialState | src/hooks/usePuzzle.ts:71-76 | no contract of its own; `initialState`, described by `Puzzle.InitialStateWellFormed` |
| Puzzle.Reducer | src/hooks/usePuzzle.ts:78-125 | no contract of its own; the reducer, described by `Puzzle.RejectedMoveKeepsState`, `Puzzle.AcceptedMove`, `Puzzle.ReducerKeepsWellFormed`, `Puzzle.ResetIsIdempotent` and the step lemmas `Puzzle.CursorStep`, `Puzzle.ClockStep` and `Puzzle.StopStep` |
| Puzzle.WellFormed | src/hooks/usePuzzle.ts:71-114 | no contract of its own; the invariant every state `initialState` and the reducer produce satisfies, proved by `Puzzle.InitialStateWellFormed` and `Puzzle.ReducerKeepsWellFormed` |
| Puzzle.InitialStateWellFormed | src/hooks/usePuzzle.ts:71-76 | the initial state is starting position, cursor 1, next square f8, progress 1/36, no times, and satisfies the state invariant |
| Puzzle.RejectedMoveKeepsState | src/hooks/usePuzzle.ts:86-118 | a move chess.js rejects, or one to d5 or an attacked square, returns the state unchanged |
| Puzzle.AcceptedMove | src/hooks/usePuzzle.ts:91-114 | an accepted move lands on a target; its position is `resetTurn(fen, "w")`; the cursor grows by one exactly on the next target and never passes the end; the start time is kept or set to now; the stop time is set, to now, exactly when this move reaches the end |
| Puzzle.ReducerKeepsWellFormed | src/hooks/usePuzzle.ts:78-125 | every action keeps the invariant: cursor in 1..36, `progress` is cursor/36, `nextSquare` is `targetSquares[cursor]`, no start time before the first move, a stop time only at the end |
| Puzzle.ResetIsIdempotent | src/hooks/usePuzzle.ts:120-122 | `ResetGame` returns the initial state from any state, so resetting twice is resetting once |
| Puzzle.MoveAfterSolvingClearsStopTime | src/hooks/usePuzzle.ts:94-103 | an accepted move after the end keeps the cursor at 36 and leaves no stop time |
| Puzzle.AdvanceStep | src/hooks/usePuzzle.ts:95-103 | a move to the next target that chess.js allows advances the cursor by one and stops the clock exactly at the end |
| Puzzle.Replay | src/hooks/usePuzzle.ts:78-125 | no contract of its own; successive `PlaceKnight` dispatches through the reducer, described by `Puzzle.ReplayKeepsWellFormed`, `Puzzle.ReplayCountsMatched`, `Puzzle.ReplayStopTime` and `Puzzle.SolvedIffAllMatched` |
| Puzzle.AllAccepted | src/hooks/usePuzzle.ts:86-91 | no contract of its own; every dispatched move meets the accept condition at the state reached before it, the hypothesis of the replay lemmas |
| Puzzle.Matched | src/hooks/usePuzzle.ts:95-98 | the greedy in-order count of targets a game meets is at most the number of targets and the number of moves |
| Puzzle.MatchedPrefix | src/hooks/usePuzzle.ts:95-98 | playing the first j targets themselves meets j of them |
| Puzzle.Cursor | src/hooks/usePuzzle.ts:95-98 | a cursor that moves on only at the square it points at stays between its start and the end of the list |
| Puzzle.CursorIsMatched | src/hooks/usePuzzle.ts:95-98 | that cursor moves on by exactly the greedy count of targets met |
| Puzzle.CursorStep | src/hooks/usePuzzle.ts:95-98 | an accepted move moves the cursor on by one exactly when its square is the one the cursor points at |
| Puzzle.ClockStep | src/hooks/usePuzzle.ts:93-102 | an accepted move keeps the start time or sets it to now, and any stop time it leaves is now |
| Puzzle.StopStep | src/hooks/usePuzzle.ts:94-102 | an accepted move leaves a stop time exactly when it meets the last target |
| Puzzle.ReplayCursor | src/hooks/usePuzzle.ts:78-125 | a game of accepted moves leaves the reducer's cursor where that greedy cursor ends |
| Puzzle.ReplayStartTime | src/hooks/usePuzzle.ts:93 | a game of accepted moves keeps an earlier start time, or starts the clock at its first move |
| Puzzle.ReplayKeepsWellFormed | src/hooks/usePuzzle.ts:78-125 | any game, accepted moves or not, ends in a state that satisfies the invariant |
| Puzzle.ReplayCountsMatched | src/hooks/usePuzzle.ts:91-114 | after any game of accepted moves the cursor has moved on by the number of remaining targets the moves meet in order, and the start time is the first move's (or the earlier one) |
| Puzzle.LastMeetsEndIff | src/hooks/usePuzzle.ts:97-102 | the last move is the one that takes the cursor to the end exactly when the whole game reaches the end and the game without its last move does not |
| Puzzle.ReplayStopCursor | src/hooks/usePuzzle.ts:94-102 | a game of accepted moves ends with a stop time exactly when its last move takes the cursor to the end |
| Puzzle.ReplayStopStamp | src/hooks/usePuzzle.ts:94-102 | when a game of accepted moves ends with a stop time, it is the last move's time |
| Puzzle.ReplayStopTime | src/hooks/usePuzzle.ts:94-102 | the same in counting terms: a stop time exactly when the whole game meets every remaining target and the game without its last move does not |
| Puzzle.SolvedIffAllMatched | src/hooks/usePuzzle.ts:95-102 | a game of accepted moves solves the puzzle exactly when its moves meet every remaining target in order |
| Puzzle.VisitingTheTargetsSolves | src/hooks/usePuzzle.ts:91-114 | when every move is accepted, visiting the remaining targets in order reaches the end, stops the clock at the last move's time and keeps the first start time |
| Puzzle.OpeningToG6 | src/hooks/usePuzzle.ts:91-114 | the tour's opening move h8 to g6, when chess.js allows it, keeps the cursor at 1 with f8 next and starts the clock |
| Puzzle.CheatingOpening | src/hooks/usePuzzle.ts:87-89 | h8 to f7 lands on a square the queen attacks: it is cheating and leaves the initial state, clock unstarted, whatever chess.js says |
| Puzzle.OpeningTour | src/hooks/usePuzzle.ts:91-114 | the accepted game h8 to g6 to f8 gives cursor 2, next square e8, the first move's start time and no stop time |
| Puzzle.PuzzleHook.constructor | src/hooks/usePuzzle.ts:68-76 | the hook starts in the initial state with a board on the starting position |
| Puzzle.PuzzleHook.Dispatch | src/hooks/usePuzzle.ts:78-125 | dispatching stores the reducer's result and leaves the board on its position with an empty undo stack: load on accept, undo on reject, load of the start on reset |
| ChessAdapter.Chess.constructor | src/hooks/usePuzzle.ts:69 | `new Chess(position)` holds `position` with nothing to undo |
| ChessAdapter.Chess.MoveKnight | src/hooks/usePuzzle.ts:86 | `chess.move("N<sq>")` takes the rules' position and pushes the old one, or changes nothing when the rules refuse |
| ChessAdapter.Chess.MoveFromTo | src/components/App.tsx:202 | `chess.move({from, to})`, the same with the drop rules |
| ChessAdapter.Chess.Load | src/hooks/usePuzzle.ts:105 | `chess.load(p)` holds `p` with nothing to undo |
| ChessAdapter.Chess.Undo | src/hooks/usePuzzle.ts:116 | `chess.undo()` goes back to the last pushed position, or does nothing when there is none |
| Fen.Field | src/hooks/usePuzzle.ts:46-47 | no contract of its own; a destructured field of `fen.split(" ")`, the empty string where the field is missing, since `join` renders `undefined` as ""; described by `Fen.ResetTurnFields` and `Fen.ResetTurnSixFields` |
| Fen.ResetTurn | src/hooks/usePuzzle.ts:45-48 | no contract of its own; `resetTurn`, described by `Fen.ResetTurnFields`, `Fen.ResetTurnSixFields`, `Fen.ResetTurnIdempotent` and `Fen.ResetTurnFixesNormalised` |
| Fen.ResetTurnFields | src/hooks/usePuzzle.ts:45-48 | the rewritten FEN splits into pieces, `color`, castling, en passant, "0", "1" |
| Fen.ResetTurnSixFields | src/hooks/usePuzzle.ts:45-48 | on a six-field FEN, fields 0, 2 and 3 are unchanged, field 1 is `color`, fields 4 and 5 are "0" and "1" |
| Fen.ResetTurnIdempotent | src/hooks/usePuzzle.ts:45-48 | rewriting twice is rewriting once |
| Fen.ResetTurnFixesNormalised | src/hooks/usePuzzle.ts:45-48 | a six-field FEN with `color` to move and counters "0 1" is left as it is |
| Text.Split | src/hooks/usePuzzle.ts:46 | `split` returns at least one piece, no piece holds the separator, and exactly one piece when the string has no separator |
| Text.Join | src/hooks/usePuzzle.ts:47 | no contract of its own; `join`, whose inverse is `Split` by `Text.SplitJoin` |
| Text.JoinSplit | src/hooks/usePuzzle.ts:46-47 | joining the pieces of any split gives the string back |
| Text.SplitJoin | src/hooks/usePuzzle.ts:46-47 | splitting a join gives the fields back when no field holds the separator |
| Text.NatToString | src/hooks/useTimer.ts:4 | `${n}` for a natural number: at least one character, all decimal digits, exactly one character below 10; it reads back as n by `Text.ParseNatToString` |
| Text.IntToString | src/hooks/useTimer.ts:4 | no contract of its own; `${n}`, described through `Timer.PadTimeDigits`, `Timer.FormatTimeParts` and `Timer.FormatTimeRoundTrip` |
| Text.ParseNatToString | src/hooks/useTimer.ts:4 | the decimal rendering of a number reads back as that number |
| Timer.PadTime | src/hooks/useTimer.ts:3-6 | `padTime` returns two characters |
| Timer.PadTimeDigits | src/hooks/useTimer.ts:3-6 | for 0 <= n < 100, `padTime(n)` is the tens digit then the units digit, and reads back as n |
| Timer.RoundSeconds | src/hooks/useTimer.ts:9 | the rounded seconds t satisfy 1000t - 500 <= ms < 1000t + 500, so halves round up |
| Timer.JsRem60 | src/hooks/useTimer.ts:10 | `a % 60` has the sign of `a`, is below 60 in size, and differs from `a` by a multiple of 60 |
| Timer.ExactDiv | src/hooks/useTimer.ts:11-12 | a division the code relies on to be exact has a quotient that multiplies back |
| Timer.Decompose | src/hooks/useTimer.ts:10-12 | both divisions are exact, 3600h + 60m + s = t, and s and m are below 60 in size |
| Timer.DecomposeNonNegative | src/hooks/useTimer.ts:10-12 | for t >= 0, h = t div 3600, m = (t div 60) mod 60, s = t mod 60, with 0 <= m, s < 60 |
| Timer.DecomposeOf | src/hooks/useTimer.ts:10-12 | hours, minutes below 60 and seconds below 60 decompose back into themselves |
| Timer.FormatTime | src/hooks/useTimer.ts:8-14 | no contract of its own; `formatTime`, described by `Timer.FormatTimeParts`, `Timer.FormatTimeFields`, `Timer.FormatTimeShape`, `Timer.FormatTimeRoundTrip` and the examples below |
| Timer.FormatTimeParts | src/hooks/useTimer.ts:13 | with hours the text is `h:` `pad(m)` `:` `pad(s)`; without, it is `m:` `pad(s)` with `m` unpadded |
| Timer.FormatTimeFields | src/hooks/useTimer.ts:8-14 | split at its colons, the text is [h, pad(m), pad(s)] with hours and [m, pad(s)] without |
| Timer.FormatTimeShape | src/hooks/useTimer.ts:8-14 | under an hour of rounded seconds t the fields are [t div 60, pad(t mod 60)]; from an hour on, [t div 3600, pad((t div 60) mod 60), pad(t mod 60)] |
| Timer.FormatTimeRoundTrip | src/hooks/useTimer.ts:8-14 | for ms >= 0 the text reads back as the rounded number of seconds |
| Timer.FormatMinutesSeconds | src/hooks/useTimer.ts:8-14 | m minutes and s seconds under an hour are written `m:pad(s)` |
| Timer.FormatHoursMinutesSeconds | src/hooks/useTimer.ts:8-14 | h > 0 hours, m minutes and s seconds are written `h:pad(m):pad(s)` |
| Timer.FormatTimeMinuteExample | src/hooks/useTimer.ts:8-14 | 65000 ms is "1:05" |
| Timer.FormatTimeHourExample | src/hooks/useTimer.ts:8-14 | 3725000 ms is "1:02:05" |
| Timer.FormatTimeZeroExample | src/hooks/useTimer.ts:8-14 | 0 ms is "0:00" |
| Timer.FormatTimeRoundDownExample | src/hooks/useTimer.ts:9 | 59499 ms is "0:59" |
| Timer.FormatTimeRoundUpExample | src/hooks/useTimer.ts:9 | 59500 ms is "1:00" |
| Timer.Elapsed | src/hooks/useTimer.ts:20-30 | nothing without a start time; otherwise stop minus start when stopped, now minus start while running |
| Timer.StoppedClockIsFrozen | src/hooks/useTimer.ts:25-27 | once stopped, the formatted time is the same whenever it is read |
| Timer.TimerHook.constructor | src/hooks/useTimer.ts:17 | the stored string starts as "00:00" |
| Timer.TimerHook.UpdateCount | src/hooks/useTimer.ts:19-36 | without a start time the stored string is kept; otherwise it becomes the formatted elapsed time, written only when it differs |
| Timer.TimerHook.Display | src/hooks/useTimer.ts:43 | the hook shows "" without a start time and the stored string otherwise |
| App.AppAttackedSquaresCollapse | src/components/App.tsx:7-39 | App's set, with d5 listed four times, is the `usePuzzle` set plus d5 |
| App.AppTargetIffTarget | src/components/App.tsx:44 | testing App's set alone accepts the same squares as the `usePuzzle` filter |
| App.IsAppTarget | src/components/App.tsx:44 | no contract of its own; App's filter predicate, membership in its set alone, shown equal to `Puzzle.IsTarget` by `App.AppTargetIffTarget` |
| App.AppTargetSquares | src/components/App.tsx:40-44 | no contract of its own; App's `targetSquares`, shown equal to the `usePuzzle` list by `App.AppTargetSquaresAgree` |
| App.AppTargetSquaresAgree | src/components/App.tsx:40-44 | App's target list is the `usePuzzle` list: same 36 squares, same order |
| App.IsAppCheating | src/components/App.tsx:203-205 | no contract of its own; App's `isCheating`, described by `App.AppCheatingAgrees` |
| App.AppCheatingAgrees | src/components/App.tsx:203-205 | App's cheat test accepts the same squares as the reducer's |
| App.InitialAppState | src/components/App.tsx:182-192 | no contract of its own; the five cells' initial values, described by `App.InitialAppStateWellFormed` |
| App.Drop | src/components/App.tsx:198-233 | no contract of its own; the cells after `onDrop`, described by `App.RejectedDropKeepsState`, `App.AcceptedDrop`, `App.DropKeepsWellFormed`, `App.VictoryOnAnyDropAtLastTarget`, `App.DropAgreesWithReducer` and `App.VictoryRulesDiffer` |
| App.AppWellFormed | src/components/App.tsx:182-220 | no contract of its own; the invariant the initial cells, `onDrop` and `reset` keep, proved by `App.InitialAppStateWellFormed` and `App.DropKeepsWellFormed` |
| App.InitialAppStateWellFormed | src/components/App.tsx:182-192 | the initial cells are starting position, no victory, cursor 1, no times, and satisfy App's invariant |
| App.DropAccepted | src/components/App.tsx:202-207 | no contract of its own; the accept condition `knightMove && !isCheating` of `onDrop`, used by `App.RejectedDropKeepsState` and `App.AcceptedDrop` |
| App.RejectedDropKeepsState | src/components/App.tsx:202-223 | a drop chess.js rejects, or one to d5 or an attacked square, changes no cell |
| App.AcceptedDrop | src/components/App.tsx:207-220 | a kept drop lands on a target; its position is `resetTurn(fen, "w")`; the cursor grows by one exactly on the next target; the start time is kept or set to now; with the cursor on the last target victory is set and the stop time becomes now, otherwise both are kept |
| App.DropKeepsWellFormed | src/components/App.tsx:198-233 | every drop keeps App's invariant: cursor in 1..36, no times and no victory before the first move, victory exactly when a stop time is set, victory only from the last target on |
| App.VictoryOnAnyDropAtLastTarget | src/components/App.tsx:208-211 | any kept drop made with the cursor on the last target wins and re-stamps the stop time, wherever the knight lands |
| App.DropAgreesWithReducer | src/components/App.tsx:212-220 | from matching states and chess.js answers, a drop and the reducer agree on position, cursor and start time, and before the last target on the stop time |
| App.VictoryRulesDiffer | src/components/App.tsx:208-211 | at the last target, a kept drop elsewhere than a1 wins in App while the reducer stays unsolved at cursor 35 |
| App.AppComponent.constructor | src/components/App.tsx:181-192 | the component starts in its initial cells with a board on the starting position |
| App.AppComponent.OnDrop | src/components/App.tsx:198-233 | the cells become `Drop` of the old cells; the board ends on the new position with an empty undo stack: undo on reject, load on accept |
| App.AppComponent.Reset | src/components/App.tsx:235-241 | the cells become the initial cells whatever came before, and the board holds the starting position |

## Left out

- React scheduling is not modelled: `useReducer` and `useState` batching, `useCallback` dependency lists, and StrictMode's double call of the reducer. Each transition runs once, on the state it is given.
- App.Drop: tests the current cursor for the victory check. Reading the code, that is not what the mounted page does. The `onDrop` callback's dependency list (src/components/App.tsx:225-232) leaves out `nextSquareIndex`, and `startTime` is the only entry that changes. So `onDrop` is rebuilt only when the clock starts or is reset, and it keeps the cursor of that render. In a real tour the first accepted move is h8 to g6, so that cursor is 1. The test `nextSquareIndex === targetSquares.length - 1` (src/components/App.tsx:208) compares 1 with 35 and never holds. Victory and the stop time are therefore never set on the page. The cursor update itself uses the functional form of `setNextSquareIndex` (212-216), which reads the current value as the model does. The stale closure is not modelled.
- App.AppComponent.OnDrop: loads the new position into the board on every kept drop. In `App.tsx` the load runs in an effect on `position` (src/components/App.tsx:183-185), so it is skipped when the position is unchanged. A knight move always changes the pieces, but the abstract chess.js rules do not promise it.
- Timer.TimerHook.UpdateCount: one `now` reading stands for `new Date()`. `setInterval` ticking every 100 ms, and its cleanup, are not modelled.
- Timer.FormatTimeRoundTrip: stated only for elapsed times that are not negative. `Timer.FormatTime` and `Timer.Decompose` are defined for negative times as the code computes them, but no property is proved about negative times.
- Text.IntToString: writes every integer in decimal. JavaScript switches to exponent notation from 1e21 on, which is far beyond any elapsed time here.
- chess.js internals (move legality, SAN parsing, FEN output) are not modelled; the rules are function parameters.
- Floating-point `progress` is an exact ratio.
- The reducer's `default` branch is not modelled: the `Action` datatype has no third case, so that branch cannot be reached.
- `allowDrag` (only the white knight may be dragged) is not modelled. The indicator's choice of "w" or the next square is rendering.
- `ProgressIndicator.tsx`, the styled components, `index.tsx` and the build configuration are presentation and have no logic.
