/** The data of the game backend: the configuration record, a game session, one
    recorded attempt, the result of a guess, and the invariant every stored session
    keeps. */
module GameModel {
  import opened Wrappers

  type GameId = string

  /** Milliseconds since the epoch, as `Date.getTime()` returns them. */
  type Millis = int

  datatype GameStatus = InProgress | Finished

  /** The outcome of comparing a guess with the secret number. */
  datatype Feedback = Lower | Higher | Equal

  datatype Attempt = Attempt(guess: int, feedback: Feedback)

  /** The game configuration as the configuration service hands it out; optional
      fields are `None` when the record does not carry them. */
  datatype GameConfig = GameConfig(
    minRange: int,
    maxRange: int,
    customMessageHigher: Option<string>,
    customMessageLower: Option<string>,
    customMessageEqual: Option<string>,
    hintTriggerCount: Option<int>)

  /** The configuration used when no configuration file can be read. */
  const DefaultConfig := GameConfig(1, 100, Some("Muito alto!"), Some("Muito baixo!"),
                                    Some("Parab\U{e9}ns, voc\U{ea} acertou!"), Some(5))

  /** Hint trigger used when the configuration gives none (or gives 0). */
  const DefaultHintTrigger := 5

  datatype GameSession = GameSession(
    gameId: GameId,
    secretNumber: int,
    attempts: nat,
    startTime: Millis,
    endTime: Option<Millis>,
    gameState: GameStatus,
    totalTimeElapsed: Option<int>,
    minRange: int,
    maxRange: int,
    attemptsHistory: seq<Attempt>,
    consecutiveIncorrectAttempts: nat,
    hintsUsed: nat)

  /** A session as it is returned to clients: every field except the secret. */
  datatype SessionView = SessionView(
    gameId: GameId,
    attempts: nat,
    startTime: Millis,
    endTime: Option<Millis>,
    gameState: GameStatus,
    totalTimeElapsed: Option<int>,
    minRange: int,
    maxRange: int,
    attemptsHistory: seq<Attempt>,
    consecutiveIncorrectAttempts: nat,
    hintsUsed: nat)

  /** A hint: the parity of the secret, or an interval known to contain it. */
  datatype Hint = Parity(even: bool) | Range(lo: int, hi: int)

  datatype GuessResult = GuessResult(
    gameId: GameId,
    isCorrect: bool,
    feedback: Feedback,
    message: string,
    attempts: nat,
    attemptsHistory: seq<Attempt>,
    gameState: GameStatus,
    totalTimeElapsed: Option<int>,
    hint: Option<Hint>,
    rangeMin: int,
    rangeMax: int,
    guessPositionPercent: int)

  datatype GameError = NotFound | AlreadyFinished | OutOfRange(min: int, max: int) | InvalidConfiguration

  /** The comparison of a guess with the secret. */
  function Classify(guess: int, secret: int): (f: Feedback)
    ensures f == Lower <==> guess < secret
    ensures f == Higher <==> guess > secret
    ensures f == Equal <==> guess == secret
  {
    if guess < secret then Lower else if guess > secret then Higher else Equal
  }

  predicate InSessionRange(s: GameSession, guess: int) {
    s.minRange <= guess <= s.maxRange
  }

  /** What every stored session satisfies: a well-formed range holding the secret,
      one history entry per attempt, every entry in range and classified against the
      secret, a correct guess only as the last entry and exactly when the game is
      finished, and a miss counter equal to the attempt count until then. */
  predicate SessionValid(s: GameSession) {
    var h := s.attemptsHistory;
    && s.minRange < s.maxRange
    && s.minRange <= s.secretNumber <= s.maxRange
    && |h| == s.attempts
    && (forall i :: 0 <= i < |h| ==> InSessionRange(s, h[i].guess))
    && (forall i :: 0 <= i < |h| ==> h[i].feedback == Classify(h[i].guess, s.secretNumber))
    && (forall i :: 0 <= i < |h| - 1 ==> h[i].feedback != Equal)
    && (s.gameState == Finished <==> (|h| > 0 && h[|h| - 1].feedback == Equal))
    && (s.gameState == InProgress ==>
          s.consecutiveIncorrectAttempts == s.attempts && s.endTime.None? && s.totalTimeElapsed.None?)
    && (s.gameState == Finished ==>
          && s.consecutiveIncorrectAttempts == 0
          && s.endTime.Some?
          && s.totalTimeElapsed == Some(s.endTime.value - s.startTime))
    && s.hintsUsed <= s.attempts
  }

  /** The session without its secret number. */
  function View(s: GameSession): (v: SessionView)
    ensures WithSecret(v, s.secretNumber) == s
  {
    SessionView(s.gameId, s.attempts, s.startTime, s.endTime, s.gameState, s.totalTimeElapsed,
                s.minRange, s.maxRange, s.attemptsHistory, s.consecutiveIncorrectAttempts, s.hintsUsed)
  }

  /** A view put back together with a secret number: the inverse of `View`. */
  function WithSecret(v: SessionView, secret: int): GameSession {
    GameSession(v.gameId, secret, v.attempts, v.startTime, v.endTime, v.gameState, v.totalTimeElapsed,
                v.minRange, v.maxRange, v.attemptsHistory, v.consecutiveIncorrectAttempts, v.hintsUsed)
  }

  /** Nothing a client receives depends on the secret number. */
  lemma ViewHidesSecret(s: GameSession, other: int)
    ensures View(s.(secretNumber := other)) == View(s)
  {
  }

  /** In a valid session the game is finished exactly when one attempt was correct,
      so the transition to Finished happens exactly once. */
  lemma {:induction false} FinishedIffOneCorrectAttempt(s: GameSession)
    requires SessionValid(s)
    ensures s.gameState == Finished <==>
              exists i :: 0 <= i < |s.attemptsHistory| && s.attemptsHistory[i].guess == s.secretNumber
    ensures forall i, j :: 0 <= i < j < |s.attemptsHistory| ==>
              !(s.attemptsHistory[i].guess == s.secretNumber && s.attemptsHistory[j].guess == s.secretNumber)
  {
    var h := s.attemptsHistory;
    if s.gameState == Finished {
      assert h[|h| - 1].guess == s.secretNumber;
    }
    forall i, j | 0 <= i < j < |h|
      ensures !(h[i].guess == s.secretNumber && h[j].guess == s.secretNumber)
    {
      assert h[i].feedback == Classify(h[i].guess, s.secretNumber);
    }
  }
}
