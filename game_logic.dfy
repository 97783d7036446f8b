/** The pure part of the game engine: how a guess is classified, which message and
    which hint it earns, where it sits in the range, and the whole transition of a
    session on an accepted guess (`Evaluate`), which the imperative `MakeGuess` is
    proved to perform. */
module GameLogic {
  import opened Wrappers
  import opened Text
  import opened GameModel

  const DefaultLowerMessage := "Muito baixo!"
  const DefaultHigherMessage := "Muito alto!"
  const AttemptsPlaceholder := "{attempts}"

  /** The built-in message for a correct guess, which embeds the attempt count. */
  function DefaultEqualMessage(attempts: nat): string {
    "Parab\U{e9}ns, voc\U{ea} acertou em " + NatToString(attempts) + " tentativas!"
  }

  /** `custom || fallback`: an absent or empty configured message falls back. */
  function MessageOr(custom: Option<string>, fallback: string): (m: string)
    ensures custom.Some? && custom.value != "" ==> m == custom.value
    ensures custom.None? || custom.value == "" ==> m == fallback
    ensures fallback != "" ==> m != ""
  {
    if custom.Some? && custom.value != "" then custom.value else fallback
  }

  /** The message of a correct guess: the configured template (or the built-in
      message) with its first `{attempts}` replaced by the final attempt count. */
  function EqualMessage(config: GameConfig, attempts: nat): (m: string)
    ensures m != ""
  {
    ReplaceFirst(MessageOr(config.customMessageEqual, DefaultEqualMessage(attempts)),
                 AttemptsPlaceholder, NatToString(attempts))
  }

  /** The message for a feedback; it is never empty, since every fallback is not. */
  function FeedbackMessage(config: GameConfig, feedback: Feedback, attempts: nat): (m: string)
    ensures m != ""
  {
    match feedback
    case Lower => MessageOr(config.customMessageLower, DefaultLowerMessage)
    case Higher => MessageOr(config.customMessageHigher, DefaultHigherMessage)
    case Equal => EqualMessage(config, attempts)
  }

  /** `config.hintTriggerCount || 5`. */
  function HintTrigger(config: GameConfig): (t: int)
    ensures t != 0
  {
    if config.hintTriggerCount.Some? && config.hintTriggerCount.value != 0
    then config.hintTriggerCount.value
    else DefaultHintTrigger
  }

  /** A hint is due on every `trigger`-th consecutive miss. Dafny's `%` and the
      truncating `%` of JavaScript agree on whether the remainder is zero. */
  function HintDue(consecutive: int, trigger: int): (due: bool)
    requires trigger != 0
    ensures due ==> consecutive >= trigger && consecutive >= -trigger
    ensures consecutive > 0 && (consecutive == trigger || consecutive == -trigger) ==> due
  {
    if consecutive > 0 && consecutive % trigger == 0 then
      PositiveMultiple(consecutive, trigger);
      true
    else false
  }

  /** A positive multiple of `t` is at least the magnitude of `t`. */
  lemma PositiveMultiple(c: int, t: int)
    requires c > 0 && t != 0 && c % t == 0
    ensures c >= t && c >= -t
  {
    var q := c / t;
    assert c == t * q;
    if t > 0 {
      MulAtLeast(t, q);
    } else {
      assert c == (-t) * (-q);
      MulAtLeast(-t, -q);
    }
  }

  /** Left fold of `Math.max` over the guesses strictly below the secret, from `init`. */
  function MaxGuessBelow(h: seq<Attempt>, secret: int, init: int): (r: int)
    ensures init <= r
    ensures forall i :: 0 <= i < |h| && h[i].guess < secret ==> h[i].guess <= r
    ensures r != init ==> exists i :: 0 <= i < |h| && h[i].guess == r && r < secret
    decreases |h|
  {
    if h == [] then init
    else
      var acc := MaxGuessBelow(h[..|h| - 1], secret, init);
      var g := h[|h| - 1].guess;
      if g < secret && g > acc then g else acc
  }

  /** Left fold of `Math.min` over the guesses strictly above the secret, from `init`. */
  function MinGuessAbove(h: seq<Attempt>, secret: int, init: int): (r: int)
    ensures r <= init
    ensures forall i :: 0 <= i < |h| && h[i].guess > secret ==> r <= h[i].guess
    ensures r != init ==> exists i :: 0 <= i < |h| && h[i].guess == r && r > secret
    decreases |h|
  {
    if h == [] then init
    else
      var acc := MinGuessAbove(h[..|h| - 1], secret, init);
      var g := h[|h| - 1].guess;
      if g > secret && g < acc then g else acc
  }

  /** The narrowing hint: one above the largest guess below the secret (or the range
      minimum) up to one below the smallest guess above it (or the range maximum). */
  function NarrowingHint(h: seq<Attempt>, secret: int, minRange: int, maxRange: int): (hint: Hint)
    ensures hint.Range? && minRange <= hint.lo && hint.hi <= maxRange
    ensures minRange <= secret ==> hint.lo <= secret
    ensures secret <= maxRange ==> secret <= hint.hi
    ensures forall i :: 0 <= i < |h| && h[i].guess != secret ==> h[i].guess < hint.lo || hint.hi < h[i].guess
  {
    Range(MaxGuessBelow(h, secret, minRange - 1) + 1, MinGuessAbove(h, secret, maxRange + 1) - 1)
  }

  /** More history never widens the narrowing hint. */
  lemma NarrowingNeverWidens(h: seq<Attempt>, more: seq<Attempt>, secret: int, minRange: int, maxRange: int)
    ensures var before := NarrowingHint(h, secret, minRange, maxRange);
            var after := NarrowingHint(h + more, secret, minRange, maxRange);
            before.lo <= after.lo && after.hi <= before.hi
  {
    var lo := MaxGuessBelow(h, secret, minRange - 1);
    if lo != minRange - 1 {
      var i :| 0 <= i < |h| && h[i].guess == lo && lo < secret;
      assert (h + more)[i] == h[i];
    }
    var hi := MinGuessAbove(h, secret, maxRange + 1);
    if hi != maxRange + 1 {
      var i :| 0 <= i < |h| && h[i].guess == hi && hi > secret;
      assert (h + more)[i] == h[i];
    }
  }

  /** The fold really computes the maximum: it is the unique value that is the start
      value or a guess below the secret, is at least the start value and bounds every
      guess below the secret. */
  lemma MaxGuessBelowIsMaximum(h: seq<Attempt>, secret: int, init: int, m: int)
    requires init <= m
    requires m == init || exists i :: 0 <= i < |h| && h[i].guess == m && m < secret
    requires forall i :: 0 <= i < |h| && h[i].guess < secret ==> h[i].guess <= m
    ensures MaxGuessBelow(h, secret, init) == m
  {
  }

  /** The fold really computes the minimum, symmetrically. */
  lemma MinGuessAboveIsMinimum(h: seq<Attempt>, secret: int, init: int, m: int)
    requires m <= init
    requires m == init || exists i :: 0 <= i < |h| && h[i].guess == m && m > secret
    requires forall i :: 0 <= i < |h| && h[i].guess > secret ==> m <= h[i].guess
    ensures MinGuessAbove(h, secret, init) == m
  {
  }

  /** `Math.round(((guess - min) / (max - min)) * 100)` on exact values: the share of
      the range rounded to the nearest integer, halves upwards. */
  function PositionPercent(guess: int, minRange: int, maxRange: int): (p: int)
    requires minRange < maxRange
    ensures minRange <= guess <= maxRange ==> 0 <= p <= 100
    ensures guess == minRange ==> p == 0
    ensures guess == maxRange ==> p == 100
  {
    var d := maxRange - minRange;
    var p := (200 * (guess - minRange) + d) / (2 * d);
    RoundedShare(d, guess - minRange);
    PercentBounds(p, d, guess - minRange);
    p
  }

  /** `(200 * x + d) / (2 * d)` is `100 * x / d` rounded to the nearest integer, halves up. */
  lemma RoundedShare(d: int, x: int)
    requires d > 0
    ensures var p := (200 * x + d) / (2 * d);
            (2 * p - 1) * d <= 200 * x < (2 * p + 1) * d
  {
    var n := 200 * x + d;
    var p := n / (2 * d);
    assert 2 * d * p <= n < 2 * d * p + 2 * d by {
      assert n == (2 * d) * p + n % (2 * d);
    }
    assert (2 * p - 1) * d == 2 * d * p - d && (2 * p + 1) * d == 2 * d * p + d;
  }

  /** The position is the guess's share of the range, in percent, rounded to the
      nearest integer with halves rounded up: the exact share lies within half a
      point of it. */
  lemma PositionPercentRounds(guess: int, minRange: int, maxRange: int)
    requires minRange < maxRange
    ensures var p := PositionPercent(guess, minRange, maxRange);
            (2 * p - 1) * (maxRange - minRange) <= 200 * (guess - minRange) < (2 * p + 1) * (maxRange - minRange)
  {
    RoundedShare(maxRange - minRange, guess - minRange);
  }

  lemma PercentBounds(p: int, d: int, x: int)
    requires d > 0
    requires (2 * p - 1) * d <= 200 * x < (2 * p + 1) * d
    ensures 0 <= x <= d ==> 0 <= p <= 100
    ensures x == 0 ==> p == 0
    ensures x == d ==> p == 100
  {
    if 0 <= x {
      CancelFactor(0, 2 * p + 1, d);
    }
    if x <= d {
      CancelFactor(2 * p - 1, 201, d);
    }
    if x == 0 {
      CancelFactor(2 * p - 1, 1, d);
    }
    if x == d {
      CancelFactor(200, 2 * p + 1, d);
    }
  }

  lemma CancelFactor(a: int, b: int, d: int)
    requires d > 0
    ensures a * d < b * d ==> a < b
  {
    if a >= b {
      assert a * d - b * d == (a - b) * d;
    }
  }

  /** The state of a freshly started game. */
  function NewSession(gameId: GameId, secret: int, minRange: int, maxRange: int, now: Millis): (s: GameSession)
    requires minRange < maxRange && minRange <= secret <= maxRange
    ensures SessionValid(s)
    ensures s.gameId == gameId && s.secretNumber == secret && s.startTime == now
    ensures s.minRange == minRange && s.maxRange == maxRange
    ensures s.gameState == InProgress && s.attempts == 0 && s.attemptsHistory == []
    ensures s.consecutiveIncorrectAttempts == 0 && s.hintsUsed == 0
  {
    GameSession(gameId, secret, 0, now, None, InProgress, None, minRange, maxRange, [], 0, 0)
  }

  /** A session that accepts `guess`: valid, not finished, guess within its range. */
  predicate Accepts(s: GameSession, guess: int) {
    SessionValid(s) && s.gameState == InProgress && InSessionRange(s, guess)
  }

  /** Appending an accepted guess with its classification keeps the history facts of
      `SessionValid`, and the new entry is correct exactly when the guess is. */
  lemma AppendAccepted(s: GameSession, guess: int)
    requires Accepts(s, guess)
    ensures var h := s.attemptsHistory + [Attempt(guess, Classify(guess, s.secretNumber))];
            && (forall i :: 0 <= i < |h| ==> InSessionRange(s, h[i].guess))
            && (forall i :: 0 <= i < |h| ==> h[i].feedback == Classify(h[i].guess, s.secretNumber))
            && (forall i :: 0 <= i < |h| - 1 ==> h[i].feedback != Equal)
  {
    var h0 := s.attemptsHistory;
    assert forall i :: 0 <= i < |h0| ==> h0[i].feedback != Equal;
  }

  /** The hint policy on a miss that makes `consecutive` misses in a row, when
      `hintsUsed` hints were given before: a hint is due on every `trigger`-th miss,
      the first one gives the parity of the secret, every later one the narrowing
      interval of the history `h` (which already holds this miss). */
  function HintAfterMiss(h: seq<Attempt>, secret: int, minRange: int, maxRange: int,
                         consecutive: nat, hintsUsed: nat, trigger: int): (hint: Option<Hint>)
    requires trigger != 0
    requires minRange <= secret <= maxRange
    requires forall i :: 0 <= i < |h| ==> minRange <= h[i].guess <= maxRange
    ensures hint.Some? <==> HintDue(consecutive, trigger)
    ensures hint.Some? ==> (hint.value.Parity? <==> hintsUsed == 0)
    ensures hint.Some? && hint.value.Parity? ==> (hint.value.even <==> secret % 2 == 0)
    ensures hint.Some? && hint.value.Range? ==> minRange <= hint.value.lo <= secret <= hint.value.hi <= maxRange
    ensures hint.Some? && hint.value.Range? ==>
              forall i :: 0 <= i < |h| && h[i].guess != secret ==> h[i].guess < hint.value.lo || hint.value.hi < h[i].guess
  {
    if !HintDue(consecutive, trigger) then None
    else if hintsUsed + 1 == 1 then Some(Parity(secret % 2 == 0))
    else Some(NarrowingHint(h, secret, minRange, maxRange))
  }

  datatype Evaluation = Evaluation(session: GameSession, result: GuessResult)

  /** The transition of a session on an accepted guess, and the result returned. */
  function Evaluate(s: GameSession, guess: int, config: GameConfig, now: Millis): (e: Evaluation)
    requires Accepts(s, guess)
    // the identity, the secret, the range and the start of the game never change
    ensures e.session.gameId == s.gameId && e.session.secretNumber == s.secretNumber
    ensures e.session.minRange == s.minRange && e.session.maxRange == s.maxRange
    ensures e.session.startTime == s.startTime
    // one more attempt, recorded at the end of the history
    ensures e.session.attempts == s.attempts + 1
    ensures e.session.attemptsHistory == s.attemptsHistory + [Attempt(guess, e.result.feedback)]
    // the feedback follows the comparison with the secret
    ensures e.result.feedback == Lower <==> guess < s.secretNumber
    ensures e.result.feedback == Higher <==> guess > s.secretNumber
    ensures e.result.feedback == Equal <==> guess == s.secretNumber
    // only a correct guess finishes the game, and stamps its end and duration
    ensures e.result.isCorrect <==> guess == s.secretNumber
    ensures e.session.gameState == Finished <==> guess == s.secretNumber
    ensures e.result.isCorrect ==>
              e.session.endTime == Some(now) && e.session.totalTimeElapsed == Some(now - s.startTime)
    ensures !e.result.isCorrect ==>
              e.session.consecutiveIncorrectAttempts == s.consecutiveIncorrectAttempts + 1
    // a hint comes exactly on the trigger-th consecutive misses; the first is parity
    ensures e.result.hint.Some? <==>
              !e.result.isCorrect && HintDue(e.session.consecutiveIncorrectAttempts, HintTrigger(config))
    ensures e.session.hintsUsed == s.hintsUsed + (if e.result.hint.Some? then 1 else 0)
    ensures e.result.hint.Some? ==> (e.result.hint.value.Parity? <==> e.session.hintsUsed == 1)
    ensures e.result.hint.Some? && e.result.hint.value.Parity? ==>
              (e.result.hint.value.even <==> s.secretNumber % 2 == 0)
    ensures e.result.hint.Some? && e.result.hint.value.Range? ==>
              s.minRange <= e.result.hint.value.lo <= s.secretNumber <= e.result.hint.value.hi <= s.maxRange
    // the position of the guess in the range
    ensures 0 <= e.result.guessPositionPercent <= 100
    // the result reports the new state of the session
    ensures e.result.gameId == s.gameId && e.result.attempts == e.session.attempts
    ensures e.result.attemptsHistory == e.session.attemptsHistory
    ensures e.result.gameState == e.session.gameState
    ensures e.result.totalTimeElapsed == e.session.totalTimeElapsed
    ensures e.result.rangeMin == s.minRange && e.result.rangeMax == s.maxRange
  {
    var attempts := s.attempts + 1;
    var feedback := Classify(guess, s.secretNumber);
    var history := s.attemptsHistory + [Attempt(guess, feedback)];
    var percent := PositionPercent(guess, s.minRange, s.maxRange);
    if feedback == Equal then
      var session := s.(attempts := attempts, endTime := Some(now), gameState := Finished,
                        totalTimeElapsed := Some(now - s.startTime), attemptsHistory := history,
                        consecutiveIncorrectAttempts := 0);
      Evaluation(session, GuessResult(s.gameId, true, feedback, EqualMessage(config, attempts), attempts, history,
                                      Finished, session.totalTimeElapsed, None, s.minRange, s.maxRange, percent))
    else
      var consecutive := s.consecutiveIncorrectAttempts + 1;
      var hint := HintAfterMiss(history, s.secretNumber, s.minRange, s.maxRange,
                                consecutive, s.hintsUsed, HintTrigger(config));
      var session := s.(attempts := attempts, attemptsHistory := history,
                        consecutiveIncorrectAttempts := consecutive,
                        hintsUsed := if hint.Some? then s.hintsUsed + 1 else s.hintsUsed);
      Evaluation(session, GuessResult(s.gameId, false, feedback, FeedbackMessage(config, feedback, attempts), attempts,
                                      history, InProgress, None, hint, s.minRange, s.maxRange, percent))
  }

  /** Every accepted guess keeps the session invariant. */
  lemma EvaluateKeepsSessionValid(s: GameSession, guess: int, config: GameConfig, now: Millis)
    requires Accepts(s, guess)
    ensures SessionValid(Evaluate(s, guess, config, now).session)
  {
    AppendAccepted(s, guess);
  }

  /** The result of an accepted guess carries the message for its feedback (with the
      new attempt count), the rounded position of the guess, and, for a narrowing
      hint, the interval computed from the whole history, this guess included. */
  lemma EvaluateReports(s: GameSession, guess: int, config: GameConfig, now: Millis)
    requires Accepts(s, guess)
    ensures var e := Evaluate(s, guess, config, now);
            e.result.message == FeedbackMessage(config, e.result.feedback, e.session.attempts)
    ensures var e := Evaluate(s, guess, config, now);
            e.result.guessPositionPercent == PositionPercent(guess, s.minRange, s.maxRange)
    ensures var e := Evaluate(s, guess, config, now);
            e.result.hint.Some? && e.result.hint.value.Range? ==>
              e.result.hint.value == NarrowingHint(e.session.attemptsHistory, s.secretNumber, s.minRange, s.maxRange)
  {
  }

  /** A narrowing interval handed out by a guess leaves out every guess of the game so
      far, this one included: none of them can be the secret. */
  lemma NarrowingHintExcludesGuesses(s: GameSession, guess: int, config: GameConfig, now: Millis)
    requires Accepts(s, guess)
    ensures var e := Evaluate(s, guess, config, now);
            e.result.hint.Some? && e.result.hint.value.Range? ==>
              forall i :: 0 <= i < |e.session.attemptsHistory| ==>
                var g := e.session.attemptsHistory[i].guess;
                g < e.result.hint.value.lo || e.result.hint.value.hi < g
  {
  }

  /** The message of a correct guess is its template (the configured message, or the
      built-in one) with the first `{attempts}` replaced by the count, or the template
      itself when it holds no `{attempts}`. */
  lemma EqualMessageReplacesFirst(config: GameConfig, attempts: nat)
    ensures var template := MessageOr(config.customMessageEqual, DefaultEqualMessage(attempts));
            (forall i: nat :: !OccursAt(template, AttemptsPlaceholder, i)) ==> EqualMessage(config, attempts) == template
    ensures var template := MessageOr(config.customMessageEqual, DefaultEqualMessage(attempts));
            forall i: nat :: OccursAt(template, AttemptsPlaceholder, i) &&
                             (forall j: nat :: j < i ==> !OccursAt(template, AttemptsPlaceholder, j)) ==>
              EqualMessage(config, attempts) ==
                template[..i] + NatToString(attempts) + template[i + |AttemptsPlaceholder|..]
  {
  }

  /** The message of a correct guess. The built-in message already carries the
      count and holds no placeholder, so it is returned as it is; a configured
      template has its first `{attempts}` replaced by the count, or is returned
      unchanged when it has none. */
  lemma CorrectGuessMessage(config: GameConfig, attempts: nat)
    ensures var custom := config.customMessageEqual;
            !(custom.Some? && custom.value != "") ==>
              EqualMessage(config, attempts) == DefaultEqualMessage(attempts)
    ensures var custom := config.customMessageEqual;
            custom.Some? && custom.value != "" && (forall j :: !OccursAt(custom.value, AttemptsPlaceholder, j)) ==>
              EqualMessage(config, attempts) == custom.value
  {
    var custom := config.customMessageEqual;
    if !(custom.Some? && custom.value != "") {
      var m := DefaultEqualMessage(attempts);
      var digits := NatToString(attempts);
      assert forall k :: 0 <= k < |digits| ==> digits[k] != '{';
      assert '{' !in "Parab\U{e9}ns, voc\U{ea} acertou em ";
      assert '{' !in " tentativas!";
      assert '{' !in m;
      AbsentHeadNeverOccurs(m, AttemptsPlaceholder);
    }
  }

  lemma MulAtLeast(t: int, k: int)
    requires t > 0 && k >= 1
    ensures t * k >= t
  {
    assert t * k == t * (k - 1) + t;
  }

  /** Division with remainder has one answer. */
  lemma DivModOf(a: int, t: int, q: int, r: int)
    requires t > 0 && 0 <= r < t && a == t * q + r
    ensures a / t == q && a % t == r
  {
    var q', r' := a / t, a % t;
    assert a == t * q' + r';
    if q' < q {
      assert t * q == t * q' + t * (q - q');
      MulAtLeast(t, q - q');
    } else if q < q' {
      assert t * q' == t * q + t * (q' - q);
      MulAtLeast(t, q' - q);
    }
  }

  /** One more miss adds one to the count of completed blocks exactly when it
      completes a block, and a completed first block is exactly `t` misses. */
  lemma TriggerBlocks(c: nat, t: int)
    requires t > 0
    ensures (c + 1) / t == c / t + (if (c + 1) % t == 0 then 1 else 0)
    ensures (c + 1) % t == 0 ==> ((c + 1) / t == 1 <==> c + 1 == t)
  {
    var q, r := c / t, c % t;
    assert c == t * q + r;
    if r + 1 == t {
      assert c + 1 == t * (q + 1) + 0;
      DivModOf(c + 1, t, q + 1, 0);
    } else {
      DivModOf(c + 1, t, q, r + 1);
    }
    if c + 1 == t {
      DivModOf(c + 1, t, 1, 0);
    }
  }

  /** With the same positive trigger for the whole game, a session in progress has
      had one hint per completed block of `trigger` misses (true of a new session:
      0 == 0 / trigger). Then the hints come exactly on the misses numbered
      trigger, 2 * trigger, ..., the one on miss number `trigger` is the parity hint
      and all later ones narrow the interval. */
  lemma {:induction false} HintsFollowFixedTrigger(s: GameSession, guess: int, config: GameConfig, now: Millis)
    requires Accepts(s, guess) && HintTrigger(config) > 0
    requires s.hintsUsed == s.attempts / HintTrigger(config)
    ensures var e := Evaluate(s, guess, config, now);
            e.result.hint.Some? <==> guess != s.secretNumber && e.session.attempts % HintTrigger(config) == 0
    ensures var e := Evaluate(s, guess, config, now);
            e.session.gameState == InProgress ==> e.session.hintsUsed == e.session.attempts / HintTrigger(config)
    ensures var e := Evaluate(s, guess, config, now);
            e.result.hint.Some? ==> (e.result.hint.value.Parity? <==> e.session.attempts == HintTrigger(config))
  {
    TriggerBlocks(s.attempts, HintTrigger(config));
  }

  /** The worked example: range 1..100, secret 42, a hint every third miss, and the
      guesses 10, 20, 30, 90, 80, 70, all misses. */
  const ExampleHistory := [Attempt(10, Lower), Attempt(20, Lower), Attempt(30, Lower), Attempt(90, Higher), Attempt(80, Higher), Attempt(70, Higher)]

  /** The two hints of the worked example. While a game is in progress the misses in
      a row equal the attempt count, and under a fixed trigger one hint has been given
      per completed block before (`HintsFollowFixedTrigger`): 2 / 3 == 0 hints before
      the third miss, 5 / 3 == 1 before the sixth. The third miss earns the parity hint
      "even", the sixth the interval 31..69 between the closest guesses 30 and 70. */
  lemma ScenarioHints()
    ensures HintAfterMiss(ExampleHistory[..3], 42, 1, 100, 3, 2 / 3, 3) == Some(Parity(true))
    ensures HintAfterMiss(ExampleHistory, 42, 1, 100, 6, 5 / 3, 3) == Some(Range(31, 69))
  {
    var h := ExampleHistory;
    assert h[2].guess == 30 && h[5].guess == 70;
    MaxGuessBelowIsMaximum(h, 42, 0, 30);
    MinGuessAboveIsMinimum(h, 42, 101, 70);
  }

  /** A template `before{attempts}after` whose first part has no `{` reports the count
      in place of the placeholder. */
  lemma {:induction false} PlaceholderSubstituted(config: GameConfig, attempts: nat, before: string, after: string)
    requires config.customMessageEqual == Some(before + AttemptsPlaceholder + after)
    requires '{' !in before
    ensures EqualMessage(config, attempts) == before + NatToString(attempts) + after
  {
    var template := before + AttemptsPlaceholder + after;
    var i := |before|;
    assert template[i..i + |AttemptsPlaceholder|] == AttemptsPlaceholder;
    forall j: nat | j < i ensures !OccursAt(template, AttemptsPlaceholder, j) {
      assert template[j] == before[j];
    }
    assert template[..i] == before && template[i + |AttemptsPlaceholder|..] == after;
  }

  /** A template with the placeholder reports the count of the correct guess. */
  lemma ScenarioTemplate()
    ensures EqualMessage(DefaultConfig.(customMessageEqual := Some("Acertou em {attempts}!")), 7) == "Acertou em 7!"
  {
    var config := DefaultConfig.(customMessageEqual := Some("Acertou em {attempts}!"));
    assert "Acertou em {attempts}!" == "Acertou em " + AttemptsPlaceholder + "!";
    PlaceholderSubstituted(config, 7, "Acertou em ", "!");
    assert NatToString(7) == "7";
  }
}
