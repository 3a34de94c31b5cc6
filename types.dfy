/** Shared vocabulary of the game: letter statuses, tiles, game status,
    the persisted game record and the two size constants. */
module Types {

  /** Number of letters in a word. */
  const WordLength: nat := 5

  /** Number of rows on the board, i.e. guesses allowed per game. */
  const MaxGuesses: nat := 6

  datatype Option<T> = None | Some(value: T)

  function Max(a: nat, b: nat): nat {
    if a < b then b else a
  }

  /** Status of a letter: the three evaluation outcomes, plus `Empty` for an
      unfilled tile and `Tbd` for a typed but not yet evaluated one. */
  datatype LetterStatus = Correct | Present | Absent | Empty | Tbd
  {
    /** One of the three outcomes the evaluator can produce. */
    predicate IsEvaluated() {
      this == Correct || this == Present || this == Absent
    }
  }

  /** One cell of the board. `letter` is a one-character string, or "" for an
      empty tile. */
  datatype Tile = Tile(letter: string, status: LetterStatus)

  datatype GameStatus = Playing | Won | Lost

  /** Best known status of each keyboard key, keyed by lower-case letter. */
  type KeyboardStatus = map<char, LetterStatus>

  /** Aggregate play statistics. The distribution is an array object: a
      shallow copy of the record shares it (index = guesses used - 1). */
  datatype GameStats = GameStats(
    gamesPlayed: nat,
    gamesWon: nat,
    currentStreak: nat,
    maxStreak: nat,
    guessDistribution: array<nat>)

  /** The reduced game record written to durable storage: the solution, the
      completed guesses as strings, the partially typed guess, the status and
      the row index. */
  datatype PersistedGameState = PersistedGameState(
    solution: string,
    guesses: seq<string>,
    currentGuess: string,
    gameStatus: GameStatus,
    currentRow: int)
}
