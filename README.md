# Number-guessing game backend: a Dafny model

This project models the engine of a number-guessing game server. The engine has two parts.

**The game service** keeps an in-memory table of game sessions, keyed by game identifier.
- *start game* draws a secret number in the configured range and stores a fresh session.
- *make guess* plays one guess in a session.
  - A guess is refused when the game is unknown, already finished, or outside the session's range.
  - Otherwise the attempt is counted and the guess is compared with the secret (too low, too high, correct).
  - The guess and its feedback are appended to the session's history.
  - A correct guess ends the game and records its duration.
  - A miss may earn a hint. Hints come on every `hintTriggerCount`-th consecutive miss. The first hint gives the parity of the secret. Every later hint gives the interval between the closest guesses below and above the secret.
  - The answer also reports where the guess sits in the range, in percent.
- *get game* returns a session without its secret.

**The history service** keeps a second table: at most one saved record per finished game.

## Modules
- `Wrappers` (`wrappers.dfy`): `Option` and `Result`.
- `Text` (`text.dfy`): decimal rendering of a count, and the replacement of the first occurrence of a pattern in a string. The correct-guess message uses both.
- `GameModel` (`game_model.dfy`): the records of the game.
  - The session record, and its invariant `SessionValid`. The invariant states that the history has one entry per attempt. Every entry is classified against the secret. The game is finished exactly when the last entry is correct. While the game is in progress, every attempt so far is a miss in a row.
  - The guess result record.
  - The view without the secret.
  - The configuration record with its built-in defaults.
- `GameLogic` (`game_logic.dfy`): the pure rules.
  - Messages, the hint trigger and the hint policy, the narrowing bounds, and the rounded position.
  - `Evaluate`, the transition of a session on an accepted guess, together with the lemmas about it.
- `Games` (`game_service.dfy`): the class `GameService`.
  - Its field `gameSessions` is the session table. Its methods are `StartGame`, `MakeGuess` and `GetGame`.
  - `MakeGuess` updates the session record step by step, as the service does (`PlayGuess`, `CompareGuess`, `GiveHint`). It is proved to perform exactly `Evaluate`.
- `History` (`history_service.dfy`): the class `HistoryService`. Its field `matchHistories` is the record table. Its method is `SaveMatchHistory`.

Some inputs come from outside the engine, and they are parameters of each call:
- the configuration, which is re-read on every call;
- the random secret, constrained to the range;
- the fresh game and record identifiers;
- the clock, as milliseconds.

Two computations in the source are done differently here:
- The position in percent is computed exactly in integers. The result is `100 * (guess - min) / (max - min)` rounded to the nearest integer, with halves rounded up. This is what `Math.round` does on the exact quotient.
- `config.hintTriggerCount || 5` becomes 5 when the count is absent or 0. The truncating `%` of JavaScript and Dafny's `%` agree on whether a remainder is zero. So the hint schedule is the same for every nonzero trigger, negative ones included.

## Model
| member | source | states |
|---|---|---|
| GameModel.Classify | backend/src/services/game/game.service.ts:77-95 | the feedback is `Lower` iff the guess is below the secret, `Higher` iff above, `Equal` iff equal |
| GameModel.View | backend/src/services/game/game.service.ts:155-156 | the view keeps every field but the secret: put back together with the session's secret it gives the session again |
| GameModel.ViewHidesSecret | backend/src/services/game/game.service.ts:155 | the view returned to clients does not depend on the secret number |
| GameModel.FinishedIffOneCorrectAttempt | backend/src/services/game/game.service.ts:58-99 | in a valid session the game is finished iff some recorded guess equals the secret, and no two recorded guesses do (a game ends once, on its only correct guess) |
| GameLogic.HintTrigger | backend/src/services/game/game.service.ts:102 | the trigger is never 0 (the body is `hintTriggerCount || 5`: absent or 0 gives 5) |
| GameLogic.HintDue | backend/src/services/game/game.service.ts:103 | a hint is never due before as many misses in a row as the trigger's magnitude, and is due when exactly that many are reached |
| GameLogic.MaxGuessBelow | backend/src/services/game/game.service.ts:108-111 | the fold is at least its start value and at least every guess below the secret, and any other value it returns is such a guess |
| GameLogic.MinGuessAbove | backend/src/services/game/game.service.ts:113-116 | the fold is at most its start value and at most every guess above the secret, and any other value it returns is such a guess |
| GameLogic.MaxGuessBelowIsMaximum | backend/src/services/game/game.service.ts:108-111 | the fold equals any value that is a guess below the secret (or the start) and bounds all of them: it is the maximum |
| GameLogic.MinGuessAboveIsMinimum | backend/src/services/game/game.service.ts:113-116 | the fold equals any value that is a guess above the secret (or the start) and bounds all of them: it is the minimum |
| GameLogic.NarrowingHint | backend/src/services/game/game.service.ts:108-118 | the interval from one above the largest guess below the secret (or from the minimum) to one below the smallest guess above it (or to the maximum) lies in the range, contains a secret that is in range, and excludes every guess other than the secret |
| GameLogic.NarrowingNeverWidens | backend/src/services/game/game.service.ts:108-118 | appending guesses to the history never widens the narrowing interval |
| GameLogic.PositionPercent | backend/src/services/game/game.service.ts:125-141 | the position is 0 at the low end, 100 at the high end, and within 0..100 for a guess in range |
| GameLogic.PositionPercentRounds | backend/src/services/game/game.service.ts:141 | the position is within half a point of the exact share `100 * (guess - min) / (max - min)`, halves rounded up |
| GameLogic.NewSession | backend/src/services/game/game.service.ts:24-36 | a new session satisfies the invariant, holds the given id, secret, range and start time, is in progress, with no attempts, an empty history, no misses and no hints |
| GameLogic.AppendAccepted | backend/src/services/game/game.service.ts:98-99 | appending an accepted guess with its feedback keeps every entry in range and classified, and only the new entry may be correct |
| GameLogic.HintAfterMiss | backend/src/services/game/game.service.ts:103-119 | a hint is given iff the misses in a row are a positive multiple of the trigger; it is the parity hint iff no hint was given before, with the secret's parity; otherwise it is an interval that brackets the secret and excludes every guess |
| GameLogic.EvaluateReports | backend/src/services/game/game.service.ts:124-143 | the result of an accepted guess carries the feedback's message for the new attempt count, the rounded position of the guess, and for a narrowing hint the interval of the whole history |
| GameLogic.Evaluate | backend/src/services/game/game.service.ts:68-143 | the id, secret, range and start time never change; one more attempt is appended to the history; the feedback follows the comparison; only a correct guess finishes the game and stamps its end and duration; a miss adds one miss in a row; a hint comes iff a miss reaches a multiple of the trigger, counts one hint, and is parity iff it is the first; the position is within 0..100; the result reports the new session state |
| GameLogic.EvaluateKeepsSessionValid | backend/src/services/game/game.service.ts:68-122 | every accepted guess keeps the session invariant (history length equals attempts, one final transition to finished, misses in a row equal attempts while in progress) |
| GameLogic.NarrowingHintExcludesGuesses | backend/src/services/game/game.service.ts:107-118 | a narrowing interval handed out by a guess excludes every guess of the game so far |
| GameLogic.HintsFollowFixedTrigger | backend/src/services/game/game.service.ts:101-106 | with a fixed positive trigger and one hint per completed block of misses (true of a new game), a hint comes exactly when the attempt count reaches a multiple of the trigger, the block invariant is kept, and the parity hint comes exactly at the trigger-th miss |
| GameLogic.ScenarioHints | backend/src/services/game/game.service.ts:101-119 | in range 1..100 with secret 42 and a hint every third miss, after guesses 10, 20, 30 (no hint before) the hint is "even"; after also 90, 80, 70 (one hint before) it is the interval 31..69 |
| GameLogic.MessageOr | backend/src/services/game/game.service.ts:80 | `custom || fallback`: a configured non-empty message wins, an absent or empty one gives the fallback, so a non-empty fallback never yields an empty message |
| GameLogic.FeedbackMessage | backend/src/services/game/game.service.ts:76-95 | the message handed back for any feedback is never empty |
| GameLogic.EqualMessage | backend/src/services/game/game.service.ts:92-94 | the message of a correct guess is never empty |
| GameLogic.EqualMessageReplacesFirst | backend/src/services/game/game.service.ts:92-94 | the correct-guess message is its template (configured, or built-in with the count) with the first `{attempts}` replaced by the count, or the template itself when it has none |
| GameLogic.CorrectGuessMessage | backend/src/services/game/game.service.ts:92-94 | without a configured message the built-in message with the count is returned as is; a configured message without `{attempts}` is returned unchanged |
| GameLogic.PlaceholderSubstituted | backend/src/services/game/game.service.ts:92-94 | a configured `before{attempts}after` with no `{` in `before` yields `before`, the decimal count, `after` |
| GameLogic.ScenarioTemplate | backend/src/services/game/game.service.ts:92-94 | the configured message `Acertou em {attempts}!` after 7 attempts reads `Acertou em 7!` |
| Text.NatToString | backend/src/services/game/game.service.ts:94 | the decimal rendering is non-empty, all digits, and has no leading zero unless the count is 0 |
| Text.NatToStringRoundTrip | backend/src/services/game/game.service.ts:94 | reading the decimal rendering back gives the count |
| Text.IndexOfFrom | backend/src/services/game/game.service.ts:94 | returns the first occurrence of the pattern at or after the start position, or none when there is no such occurrence |
| Text.ReplaceFirst | backend/src/services/game/game.service.ts:94 | without an occurrence the string is unchanged; otherwise the first occurrence, and only it, is replaced |
| Games.GameService.constructor | backend/src/services/game/game.service.ts:11 | the session table starts empty and valid |
| Games.GameService.StartGame | backend/src/services/game/game.service.ts:14-46 | an empty or inverted range fails with `InvalidConfiguration` and stores nothing; otherwise exactly the new session is stored under its id and its view, without the secret, is returned |
| Games.GameService.MakeGuess | backend/src/services/game/game.service.ts:49-146 | an unknown game, a finished game and an out-of-range guess fail (`NotFound`, `AlreadyFinished`, `OutOfRange(min, max)`) and change nothing; an accepted guess stores exactly the session `Evaluate` gives and returns its result; finished games are never changed; the table stays valid |
| Games.PlayGuess | backend/src/services/game/game.service.ts:68-143 | the step-by-step updates of the session produce exactly the new session and result of `Evaluate` |
| Games.CompareGuess | backend/src/services/game/game.service.ts:76-95 | the feedback is the classification, the message the configured or default one for it; a correct guess ends the game at `now` with its duration and no misses in a row, a miss adds one miss in a row |
| Games.GiveHint | backend/src/services/game/game.service.ts:101-120 | the hint is the hint policy's answer for the recorded history (none after a correct guess) and the hint count grows by one exactly when a hint is given |
| Games.GameService.GetGame | backend/src/services/game/game.service.ts:148-157 | an unknown game fails with `NotFound`; otherwise the stored session's view is returned, for the game asked for, and nothing changes |
| History.RecordOf | backend/src/services/history/history.service.ts:35-42 | a record copies the game id, the attempt count (at least one) and the duration of the finished session, and the rating as given |
| History.AgreementSurvivesGuesses | backend/src/services/game/game.service.ts:58-60 | since finished sessions never change, saved records keep agreeing with their sessions |
| History.HistoryService.constructor | backend/src/services/history/history.service.ts:10 | the record table starts empty and valid |
| History.HistoryService.SaveMatchHistory | backend/src/services/history/history.service.ts:18-47 | an unknown game, an unfinished game and an already saved game fail and change nothing; otherwise exactly one record, built from the finished session, is added under the game id; sessions are never changed; records keep agreeing with their sessions |

## Left out
- Reading and caching the configuration file is not modelled. The configuration is a parameter of every call. The built-in defaults are the constant `DefaultConfig`.
- `crypto.randomInt`, `uuidv4` and `new Date()` are not modelled. They become parameters:
  - a secret inside the range;
  - a game id not yet in the table, and any record id;
  - the current time in milliseconds.
- `crypto.randomInt` throws for ranges of 2^48 or more. That failure is not modelled, because it belongs to the foreign random generator.
- The clock is not assumed to be monotonic, so a duration may be negative in the model.
- The audit log line written at the start of a game is not modelled (output only).
- The HTTP layer and its validation schemas are not modelled. Two schema rules reach the core. The rating between 1 and 5 is a precondition of `SaveMatchHistory`. The guess being an integer is carried by its type, `int`. Errors are the `GameError` and `HistoryError` values. Their message texts are not modelled; the range of `OutOfRange` is kept.
- Hint texts are not modelled. They are the values `Parity(even)` and `Range(lo, hi)`. Feedback and correct-guess messages are modelled as strings.
- JavaScript numbers are unbounded integers here. Floating-point precision and non-integer guesses are not modelled, and the floating-point division in the position is modelled as exact rounding.
- Sessions are values in the table and are written back after each guess. Sharing of a session object or of its history array between callers (aliasing) is not modelled.
- Concurrent requests are not modelled: calls happen one after another.
- The frontend is not part of this model.
- The multi-guess behaviour of the hint schedule is stated through its one-step invariant (`HintsFollowFixedTrigger`), not as a lemma over a whole series of guesses.
