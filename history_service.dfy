/** The match-history service: the in-memory table of saved results of finished
    games, filled from the game service's sessions. The record identifier and the
    clock are parameters of the call. */
module History {
  import opened Wrappers
  import opened GameModel
  import Games

  type HistoryId = string

  /** A saved result; `difficultyRating` is the player's optional rating of the game. */
  datatype MatchRecord = MatchRecord(
    historyId: HistoryId,
    gameId: GameId,
    attempts: nat,
    totalTimeElapsed: int,
    difficultyRating: Option<int>,
    savedAt: Millis)

  datatype HistoryError = GameNotFound | NotFinished | AlreadySaved

  /** The record of a finished game: its identifier, attempt count and duration. */
  function RecordOf(s: GameSession, historyId: HistoryId, difficultyRating: Option<int>, now: Millis): (m: MatchRecord)
    requires SessionValid(s) && s.gameState == Finished
    ensures m.gameId == s.gameId && m.attempts == s.attempts && m.attempts >= 1
    ensures s.totalTimeElapsed == Some(m.totalTimeElapsed) && s.endTime == Some(s.startTime + m.totalTimeElapsed)
    ensures m.difficultyRating == difficultyRating
  {
    MatchRecord(historyId, s.gameId, s.attempts, s.totalTimeElapsed.value, difficultyRating, now)
  }

  /** Every record describes a finished session of `sessions` as it ended. */
  predicate Agrees(records: map<GameId, MatchRecord>, sessions: map<GameId, GameSession>) {
    forall id :: id in records ==>
      && id in sessions
      && sessions[id].gameState == Finished
      && records[id].attempts == sessions[id].attempts
      && sessions[id].totalTimeElapsed == Some(records[id].totalTimeElapsed)
  }

  /** Finished sessions never change again (no guess is played on them), so saved
      records keep agreeing with the sessions whatever else happens to the table. */
  lemma AgreementSurvivesGuesses(records: map<GameId, MatchRecord>, before: map<GameId, GameSession>,
                                 after: map<GameId, GameSession>)
    requires Agrees(records, before)
    requires forall id :: id in before && before[id].gameState == Finished ==> id in after && after[id] == before[id]
    ensures Agrees(records, after)
  {
  }

  class HistoryService {
    /** The saved records, by game identifier: at most one per game. */
    var matchHistories: map<GameId, MatchRecord>

    /** Every record is stored under the identifier of its own game. */
    ghost predicate Valid()
      reads this
    {
      forall id :: id in matchHistories ==> matchHistories[id].gameId == id
    }

    /** Every record describes a finished game of `games` as it ended. */
    ghost predicate RecordsAgree(games: Games.GameService)
      reads this, games
    {
      Agrees(matchHistories, games.gameSessions)
    }

    constructor ()
      ensures Valid() && matchHistories == map[]
    {
      matchHistories := map[];
    }

    /** Saves the result of game `gameId`, with the player's rating (1 to 5) if
        given. An unknown game, a game still in progress
        and a game already saved are refused and change nothing; otherwise exactly
        one record, built from the finished session, is added. The sessions are
        never changed. */
    method SaveMatchHistory(games: Games.GameService, gameId: GameId, difficultyRating: Option<int>,
                            historyId: HistoryId, now: Millis)
      returns (r: Result<MatchRecord, HistoryError>)
      requires Valid() && games.Valid()
      requires difficultyRating.Some? ==> 1 <= difficultyRating.value <= 5
      modifies this
      ensures Valid()
      ensures gameId !in games.gameSessions ==> r == Failure(GameNotFound) && matchHistories == old(matchHistories)
      ensures gameId in games.gameSessions && games.gameSessions[gameId].gameState == InProgress ==>
                r == Failure(NotFinished) && matchHistories == old(matchHistories)
      ensures gameId in games.gameSessions && games.gameSessions[gameId].gameState == Finished &&
              gameId in old(matchHistories) ==>
                r == Failure(AlreadySaved) && matchHistories == old(matchHistories)
      ensures gameId in games.gameSessions && games.gameSessions[gameId].gameState == Finished &&
              gameId !in old(matchHistories) ==>
                var m := RecordOf(games.gameSessions[gameId], historyId, difficultyRating, now);
                r == Success(m) && matchHistories == old(matchHistories)[gameId := m]
      ensures games.gameSessions == old(games.gameSessions)
      ensures old(RecordsAgree(games)) ==> RecordsAgree(games)
    {
      if gameId !in games.gameSessions {
        return Failure(GameNotFound);
      }
      var session := games.gameSessions[gameId];
      if session.gameState != Finished {
        return Failure(NotFinished);
      }
      if gameId in matchHistories {
        return Failure(AlreadySaved);
      }
      var newRecord := MatchRecord(historyId, session.gameId, session.attempts, session.totalTimeElapsed.value,
                                   difficultyRating, now);
      matchHistories := matchHistories[gameId := newRecord];
      r := Success(newRecord);
    }
  }
}
