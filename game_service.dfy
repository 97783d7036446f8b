/** The game service: the in-memory table of game sessions and the three operations
    on it. The configuration, the secret drawn at random, the new game's identifier
    and the clock are parameters of each call. */
module Games {
  import opened Wrappers
  import opened GameModel
  import opened GameLogic

  class GameService {
    /** The sessions of every game started so far, by game identifier. */
    var gameSessions: map<GameId, GameSession>

    /** Every stored session is consistent and stored under its own identifier. */
    ghost predicate Valid()
      reads this
    {
      forall id :: id in gameSessions ==> SessionValid(gameSessions[id]) && gameSessions[id].gameId == id
    }

    constructor ()
      ensures Valid() && gameSessions == map[]
    {
      gameSessions := map[];
    }

    /** Starts a game on the configured range with `secret` (drawn by the caller from
        that range, bounds included) as its number, under the fresh identifier `gameId`. An empty or inverted range is a
        server misconfiguration and stores nothing. The answer omits the secret. */
    method StartGame(config: GameConfig, gameId: GameId, secret: int, now: Millis)
      returns (r: Result<SessionView, GameError>)
      requires Valid() && gameId !in gameSessions
      requires config.minRange < config.maxRange ==> config.minRange <= secret <= config.maxRange
      modifies this
      ensures Valid()
      ensures config.minRange >= config.maxRange ==>
                r == Failure(InvalidConfiguration) && gameSessions == old(gameSessions)
      ensures config.minRange < config.maxRange ==>
                var s := NewSession(gameId, secret, config.minRange, config.maxRange, now);
                r == Success(View(s)) && gameSessions == old(gameSessions)[gameId := s]
    {
      var minRange, maxRange := config.minRange, config.maxRange;
      if minRange >= maxRange {
        return Failure(InvalidConfiguration);
      }
      var newGame := GameSession(gameId, secret, 0, now, None, InProgress, None, minRange, maxRange, [], 0, 0);
      gameSessions := gameSessions[newGame.gameId := newGame];
      r := Success(View(newGame));
    }

    /** Plays `guess` in game `gameId`. An unknown game, a finished game and a guess
        outside the game's range are refused and change nothing; otherwise the
        session is updated field by field and stored back, and the answer is the
        one `Evaluate` describes. */
    method MakeGuess(gameId: GameId, guess: int, config: GameConfig, now: Millis)
      returns (r: Result<GuessResult, GameError>)
      requires Valid()
      modifies this
      ensures Valid()
      ensures gameId !in old(gameSessions) ==> r == Failure(NotFound) && gameSessions == old(gameSessions)
      ensures gameId in old(gameSessions) && old(gameSessions)[gameId].gameState == Finished ==>
                r == Failure(AlreadyFinished) && gameSessions == old(gameSessions)
      ensures gameId in old(gameSessions) && old(gameSessions)[gameId].gameState == InProgress &&
              !InSessionRange(old(gameSessions)[gameId], guess) ==>
                var s := old(gameSessions)[gameId];
                r == Failure(OutOfRange(s.minRange, s.maxRange)) && gameSessions == old(gameSessions)
      ensures gameId in old(gameSessions) && Accepts(old(gameSessions)[gameId], guess) ==>
                var e := Evaluate(old(gameSessions)[gameId], guess, config, now);
                r == Success(e.result) && gameSessions == old(gameSessions)[gameId := e.session]
      // a finished game is never touched again
      ensures forall id :: id in old(gameSessions) && old(gameSessions)[id].gameState == Finished ==>
                id in gameSessions && gameSessions[id] == old(gameSessions)[id]
    {
      if gameId !in gameSessions {
        return Failure(NotFound);
      }
      var session := gameSessions[gameId];
      if session.gameState == Finished {
        return Failure(AlreadyFinished);
      }
      if guess < session.minRange || guess > session.maxRange {
        return Failure(OutOfRange(session.minRange, session.maxRange));
      }
      var next, result := PlayGuess(session, guess, config, now);
      EvaluateKeepsSessionValid(session, guess, config, now);
      gameSessions := gameSessions[gameId := next];
      r := Success(result);
    }

    /** The state of game `gameId` without its secret, or `NotFound`. */
    method GetGame(gameId: GameId) returns (r: Result<SessionView, GameError>)
      ensures gameId !in gameSessions ==> r == Failure(NotFound)
      ensures gameId in gameSessions ==> r == Success(View(gameSessions[gameId]))
      ensures Valid() && r.Success? ==> r.value.gameId == gameId
    {
      if gameId !in gameSessions {
        return Failure(NotFound);
      }
      var session := gameSessions[gameId];
      r := Success(View(session));
    }
  }

  /** The accepted-guess path of `makeGuess`, step by step on the session record:
      count the attempt, compare, record it, maybe hand out a hint, and report the
      position. It performs exactly the transition `Evaluate` describes. */
  method PlayGuess(s: GameSession, guess: int, config: GameConfig, now: Millis)
    returns (next: GameSession, result: GuessResult)
    requires Accepts(s, guess)
    ensures next == Evaluate(s, guess, config, now).session
    ensures result == Evaluate(s, guess, config, now).result
  {
    var session := s.(attempts := s.attempts + 1);
    var feedback, isCorrect, message;
    session, feedback, isCorrect, message := CompareGuess(session, guess, config, now);
    session := session.(attemptsHistory := session.attemptsHistory + [Attempt(guess, feedback)]);
    var hint;
    session, hint := GiveHint(session, isCorrect, config);
    next := session;
    var guessPositionPercent := PositionPercent(guess, session.minRange, session.maxRange);
    result := GuessResult(session.gameId, isCorrect, feedback, message, session.attempts,
                          session.attemptsHistory, session.gameState, session.totalTimeElapsed,
                          hint, session.minRange, session.maxRange, guessPositionPercent);
  }

  /** The comparison step: the feedback on the guess, its message, and on a correct
      guess the end of the game (stamped with `now`), on a miss one more miss in a
      row. The attempt count of `s` already includes this guess. */
  method CompareGuess(s: GameSession, guess: int, config: GameConfig, now: Millis)
    returns (session: GameSession, feedback: Feedback, isCorrect: bool, message: string)
    ensures feedback == Classify(guess, s.secretNumber)
    ensures isCorrect <==> guess == s.secretNumber
    ensures message == FeedbackMessage(config, feedback, s.attempts)
    ensures isCorrect ==>
              session == s.(endTime := Some(now), gameState := Finished,
                            totalTimeElapsed := Some(now - s.startTime), consecutiveIncorrectAttempts := 0)
    ensures !isCorrect ==> session == s.(consecutiveIncorrectAttempts := s.consecutiveIncorrectAttempts + 1)
  {
    session := s;
    isCorrect := false;
    if guess < session.secretNumber {
      feedback := Lower;
      session := session.(consecutiveIncorrectAttempts := session.consecutiveIncorrectAttempts + 1);
      message := MessageOr(config.customMessageLower, DefaultLowerMessage);
    } else if guess > session.secretNumber {
      feedback := Higher;
      session := session.(consecutiveIncorrectAttempts := session.consecutiveIncorrectAttempts + 1);
      message := MessageOr(config.customMessageHigher, DefaultHigherMessage);
    } else {
      feedback := Equal;
      isCorrect := true;
      session := session.(endTime := Some(now), gameState := Finished);
      session := session.(totalTimeElapsed := Some(session.endTime.value - session.startTime));
      session := session.(consecutiveIncorrectAttempts := 0);
      message := EqualMessage(config, session.attempts);
    }
  }

  /** The hint step, after the guess is recorded: on a miss that makes a multiple of
      the trigger in a row, count one more hint and give the parity hint if it is the
      first, the narrowing interval of the history otherwise. */
  method GiveHint(s: GameSession, isCorrect: bool, config: GameConfig) returns (session: GameSession, hint: Option<Hint>)
    requires s.minRange <= s.secretNumber <= s.maxRange
    requires forall i :: 0 <= i < |s.attemptsHistory| ==> s.minRange <= s.attemptsHistory[i].guess <= s.maxRange
    ensures hint == if isCorrect then None
                    else HintAfterMiss(s.attemptsHistory, s.secretNumber, s.minRange, s.maxRange,
                                       s.consecutiveIncorrectAttempts, s.hintsUsed, HintTrigger(config))
    ensures session == s.(hintsUsed := if hint.Some? then s.hintsUsed + 1 else s.hintsUsed)
  {
    session := s;
    hint := None;
    var hintTrigger := HintTrigger(config);
    if !isCorrect && session.consecutiveIncorrectAttempts > 0 &&
       session.consecutiveIncorrectAttempts % hintTrigger == 0 {
      session := session.(hintsUsed := session.hintsUsed + 1);
      if session.hintsUsed == 1 {
        hint := Some(Parity(session.secretNumber % 2 == 0));
      } else {
        hint := Some(NarrowingHint(session.attemptsHistory, session.secretNumber,
                                   session.minRange, session.maxRange));
      }
    }
  }
}
