# Wordle clone: game logic in Dafny

This project models the game logic of a browser Wordle clone written in
TypeScript and React. It covers three parts.

- **Guess evaluation and the keyboard** (`src/utils/gameUtils.ts`, module
  `GameUtils`). `evaluateGuess` is the two-pass marking. The first pass marks
  exact matches `correct`. The second pass gives each other position the first
  unconsumed solution index that holds the same letter, marks the position
  `present` and consumes that index; a position with no such index stays
  `absent`. `updateKeyboardStatus`
  merges the statuses of a guess into the letter map, ranked correct > present
  > absent. There are also the tile-row builders and the word-list check.
- **Statistics** (`src/utils/storage.ts`, module `Storage`). These are the
  default record and the update after a game. The record copy in
  `updateStats` is shallow, so the distribution is a Dafny `array` that the
  caller's record and the result share. The win increments that array in place.
- **The game hook** (`src/hooks/useWordle.ts`, module `UseWordle`). It covers
  the empty board and the typed row, the initial state (restored from a saved
  record or fresh), the projection the save effect writes, and the hook itself
  as class `Wordle`. The class's fields are the hook's state cells. Its methods
  are the key handler, the body of the reveal timeout (`FinishReveal`), the
  reset and the two flag-clearing callbacks.

Shared types and the constants WORD_LENGTH = 5 and MAX_GUESSES = 6
(`src/types/index.ts`, `src/utils/constants.ts`) are in module `Types`.

`EvaluateGuess` and `UpdateKeyboardStatus` keep the loops of the source. Each
is proved equal to a function (`Evaluate`, `KeyboardFold`), and the lemmas
state the properties of those functions. `GetInitialGameState` runs the
source's two loops as `ReplayGuesses` and `PadBoard`, and is proved equal to
`InitialState`. `CreateCurrentRowTiles` keeps its loops and is proved equal to
`PendingRow`.

The class keeps an invariant `Valid`. While a guess is being typed, the game is
`Settled`:

- the rows above the current one are evaluated guesses;
- the rows below it are blank;
- the keyboard is the fold of the letters and statuses shown on the rows above.

While a reveal runs and after the game ends, the game is `Revealed`: the
current row also holds its evaluated guess, and the keyboard includes it.

With solution SPEED and guess ERASE the last E is present: SPEED has two E's
and the guess's first E consumes only one of them (`GameUtils.SpeedErase`).

## Model

| member | source | states |
|---|---|---|
| GameUtils.IsValidWord | src/utils/gameUtils.ts:22-24 | a lower-case word in either list is accepted, and a word whose lower-case form is in neither list is rejected |
| GameUtils.ValidWordIgnoresCase | src/utils/gameUtils.ts:22-24 | a word is accepted exactly when its lower-case form is, since the lookup lower-cases first |
| GameUtils.FirstPass | src/utils/gameUtils.ts:28-41 | after the first pass a position is correct exactly when guess and solution agree there and absent otherwise, and the consumed solution indices are exactly the correct positions |
| GameUtils.FindUnmatchedFrom | src/utils/gameUtils.ts:48-50 | the result is -1 when no unconsumed index holds the letter, otherwise the first unconsumed index holding it |
| GameUtils.SecondPass | src/utils/gameUtils.ts:44-56 | after any number of second-pass steps there are five statuses, each correct, present or absent |
| GameUtils.Evaluate | src/utils/gameUtils.ts:27-59 | the evaluation has exactly five statuses, each correct, present or absent |
| GameUtils.EvaluateGuess | src/utils/gameUtils.ts:27-59 | the two loops over the guess compute the two-pass evaluation `Evaluate` |
| GameUtils.CorrectIffSameLetter | src/utils/gameUtils.ts:36-45 | position i is correct if and only if guess and solution have the same letter at i |
| GameUtils.MarksWithinOccurrences | src/utils/gameUtils.ts:33-55 | for every letter, its correct plus present marks are at most its occurrences in the solution |
| GameUtils.PresentHasOffTargetOccurrence | src/utils/gameUtils.ts:44-56 | a present position is not an exact match, and its letter occurs in the solution at a position that is not an exact match |
| GameUtils.AbsentMeansExhausted | src/utils/gameUtils.ts:44-56 | an absent letter has every solution index holding it consumed, so its marks equal its occurrences in the solution |
| GameUtils.SolutionIsAllCorrect | src/utils/gameUtils.ts:27-59 | guessing the solution marks all five positions correct |
| GameUtils.DisjointIsAllAbsent | src/utils/gameUtils.ts:27-59 | a guess sharing no letter with the solution is absent everywhere |
| GameUtils.SpeedErase | src/utils/gameUtils.ts:27-59 | solution SPEED, guess ERASE gives present, absent, absent, present, present |
| GameUtils.SpeedFiveEs | src/utils/gameUtils.ts:27-59 | solution SPEED, guess EEEEE gives absent, absent, correct, correct, absent: exact matches consume first |
| GameUtils.TilesFromGuess | src/utils/gameUtils.ts:62-67 | one tile per letter of the guess |
| GameUtils.TilesRoundTrip | src/utils/gameUtils.ts:62-67 | joining the letters of the built tiles gives the guess back, and tile i carries status i |
| GameUtils.EmptyTiles | src/utils/gameUtils.ts:70-75 | exactly n tiles |
| GameUtils.EmptyTilesBlank | src/utils/gameUtils.ts:70-75 | blank tiles spell the empty word and are all `empty` |
| GameUtils.KeyboardStep | src/utils/gameUtils.ts:84-99 | the letter's lower-case key is on the keyboard afterwards; for an evaluation outcome on a key that is missing or holds one, the key ends at the higher rank of the two (correct over present over absent) |
| GameUtils.KeyboardFold | src/utils/gameUtils.ts:84-99 | the keys afterwards are the old keys plus the lower-cased guess letters, every other key keeps its status, and no key's rank is lowered |
| GameUtils.UpdateKeyboardStatus | src/utils/gameUtils.ts:79-102 | the loop over the guess computes the fold `KeyboardFold` of the input map, which is a value and stays unchanged |
| GameUtils.FoldFrame | src/utils/gameUtils.ts:84-99 | the fold adds exactly the lower-cased guess letters as keys, keeps every other key's status, and never lowers a key's rank |
| GameUtils.FoldKeepsBest | src/utils/gameUtils.ts:91-98 | with evaluation outcomes only, each key ends at the highest rank among its old status and the guess's statuses for it |
| GameUtils.FoldIdempotent | src/utils/gameUtils.ts:79-102 | folding the same evaluated guess a second time changes nothing |
| GameUtils.FoldCommutes | src/utils/gameUtils.ts:79-102 | folding two evaluated guesses gives the same keyboard in either order |
| Storage.SumIncrement | src/utils/storage.ts:61 | raising one distribution entry by one raises the total by one |
| Storage.GetDefaultStats | src/utils/storage.ts:9-17 | all counters are 0, the distribution is a fresh array of six zeros, and the statistics invariant holds |
| Storage.UpdateStats | src/utils/storage.ts:48-67 | one more game played; on a win one more win, the streak up by one, the best streak raised to meet it, and entry n-1 of the caller's own array up by one; on a loss the streak reset and the rest kept; the result shares the caller's array; the invariant (wins <= games, streak <= best, distribution sums to wins) is preserved |
| UseWordle.CreateEmptyBoard | src/hooks/useWordle.ts:34-36 | six rows, each of five blank tiles |
| UseWordle.CreateCurrentRowTiles | src/hooks/useWordle.ts:156-168 | the loops build the typed row: the guess letters as `tbd`, padded with blank tiles to five |
| UseWordle.PendingRow | src/hooks/useWordle.ts:156-168 | the typed row is max(length, 5) tiles long; exactly the tiles of the typed letters are `tbd`, the rest `empty` |
| UseWordle.PendingRowSpellsGuess | src/hooks/useWordle.ts:156-168 | the typed row spells the guess, holds `tbd` tiles then `empty` ones, and is max(length, 5) long |
| GameUtils.RowWord | src/hooks/useWordle.ts:117 | a row of one-letter tiles spells a word with one letter per tile |
| UseWordle.RowWordAppend | src/hooks/useWordle.ts:117 | joining the letters of two rows laid end to end joins their words |
| UseWordle.FreshState | src/hooks/useWordle.ts:75-85 | a new game on the word: six blank rows, row 0, no typed letters, in play, an empty keyboard |
| UseWordle.EvaluatedRows | src/hooks/useWordle.ts:55-59 | one restored row per saved guess |
| UseWordle.RowsStep | src/hooks/useWordle.ts:55-57 | replaying one more saved guess appends exactly its evaluated row |
| UseWordle.FoldStep | src/hooks/useWordle.ts:55-58 | replaying one more saved guess folds exactly its evaluation into the keyboard |
| UseWordle.ReplayGuesses | src/hooks/useWordle.ts:52-59 | the loop over the saved guesses yields each guess's evaluated row (`EvaluatedRow`), in order, and the keyboard folded over their evaluations (`FoldGuesses`) |
| UseWordle.PadBoard | src/hooks/useWordle.ts:61-63 | the board is padded with blank rows (`EmptyRows`) up to six, and left as it is when it already has six or more rows |
| UseWordle.InitialState | src/hooks/useWordle.ts:48-86 | the initial state is always in play; a saved game in play keeps its solution, typed guess and row, with at least six rows; anything else is a fresh game on the new word |
| UseWordle.GetInitialGameState | src/hooks/useWordle.ts:48-86 | the result is `InitialState`: a saved game in play is rebuilt from its re-evaluated guesses and blank padding rows, with its keyboard refolded; otherwise a fresh game on the new word |
| UseWordle.RestoredBoard | src/hooks/useWordle.ts:51-72 | a restored board has six rows: row r is the evaluation of saved guess r, and the rows after the saved guesses are blank |
| UseWordle.EvaluatedRowSpells | src/hooks/useWordle.ts:56-57 | the row built from an evaluated word spells that word and shows its evaluation |
| UseWordle.FoldRowsOfEvaluated | src/hooks/useWordle.ts:55-58 | on evaluated rows, folding the statuses the tiles show gives the keyboard that re-evaluating the rows' words gives |
| UseWordle.RestoredSettled | src/hooks/useWordle.ts:51-73 | restoring a consistent record gives a settled game whose completed rows spell the saved guesses |
| UseWordle.Slice | src/hooks/useWordle.ts:116 | `slice(0, end)` never returns more rows than it is given |
| UseWordle.FullRowWords | src/hooks/useWordle.ts:117-118 | only five-letter words are kept, and never more than one per row |
| UseWordle.FullRowWordsOfEvaluated | src/hooks/useWordle.ts:115-118 | when every row spells five letters, the saved words are exactly the rows' words, in order |
| UseWordle.SaveProjection | src/hooks/useWordle.ts:113-128 | a record is written exactly when there is a solution; it copies the solution, typed guess, status and row, and holds only five-letter words, at most one per row above the current one |
| UseWordle.SavedWords | src/hooks/useWordle.ts:113-128 | a settled game in play saves a consistent record holding the word of each completed row, in order, and the keyboard is the fold of those words |
| UseWordle.RevealedSaveConsistent | src/hooks/useWordle.ts:113-128 | while a row is being revealed in a game in play, the saved record is consistent and holds the words of the rows above the current one |
| UseWordle.SaveThenRestore | src/hooks/useWordle.ts:113-128 | saving a settled game in play and restoring the record rebuilds the same state, except that the current row comes back blank; the record is consistent |
| UseWordle.RestoreThenSave | src/hooks/useWordle.ts:51-73 | restoring a consistent record gives a settled game whose save projection is that record again |
| UseWordle.FreshStateSettled | src/hooks/useWordle.ts:75-85 | a fresh game is settled and saves as a record with no guesses, an empty typed guess and row 0 |
| UseWordle.InitialStateSettled | src/hooks/useWordle.ts:48-86 | the initial state is always a settled game in play |
| UseWordle.Retyped | src/hooks/useWordle.ts:236-255 | used by the backspace branch (lines 236-242) and the letter branch (lines 249-255): the typed guess becomes the new one, the current row spells it, and every other row and field is kept |
| UseWordle.Submitted | src/hooks/useWordle.ts:187-199 | the current row spells the guess and shows its evaluation, the keyboard is the old one with that evaluation folded in, and every other row and field is kept |
| UseWordle.RetypedSettled | src/hooks/useWordle.ts:233-256 | redrawing the current row for a guess of at most five letters keeps the game settled |
| UseWordle.SubmittedRevealed | src/hooks/useWordle.ts:187-199 | writing the evaluated guess into the current row and folding it into the keyboard reveals the row |
| UseWordle.SubmittedKeyboard | src/hooks/useWordle.ts:191-199 | after a submit the keyboard is exactly the fold of the rows up to and including the new one |
| UseWordle.GameOverCoherent | src/hooks/useWordle.ts:206-223 | ending a revealed game as won on the solution, or as lost on a wrong guess in the last row, keeps the class invariant |
| UseWordle.AdvanceSettles | src/hooks/useWordle.ts:224-229 | moving to the next row with an empty guess settles a revealed game that is not on the last row |
| UseWordle.ClassifyKey | src/hooks/useWordle.ts:174-246 | any single letter of either case is a letter key, carried as its upper-case form; a key is enter exactly when its lower-case form is "enter", backspace exactly when it is "backspace" or "delete", and any other key that is not a single letter is ignored |
| UseWordle.ClassifyIgnoresCase | src/hooks/useWordle.ts:174 | a key and its lower-case form are classified alike |
| UseWordle.WinMessage | src/hooks/useWordle.ts:8-15 | on any of the six rows the win toast is a row message and never the "Nice!" fallback |
| UseWordle.Wordle.constructor | src/hooks/useWordle.ts:90-100 | the hook starts on the initial state, the loaded statistics, no flags and no toast, in a valid game that accepts keys |
| UseWordle.Wordle.KeyPress | src/hooks/useWordle.ts:171-257 | nothing changes unless the game is in play with no reveal; otherwise the key goes to its branch. A letter is appended in upper case only while the guess is short. Backspace drops the last letter only from a non-empty guess. Either way only the current row is redrawn. Enter on a short guess does nothing. Enter on an unknown word only raises the flag and the toast. Enter on a known word evaluates it into the current row, folds the keyboard and starts the reveal. Statistics are never touched and the invariant is kept |
| UseWordle.Wordle.SubmitGuess | src/hooks/useWordle.ts:177-199 | a guess shorter than five letters changes nothing; an unknown word only raises the flag and shows "Not in word list"; a known word is evaluated into the current row, folded into the keyboard, and the reveal starts; statistics are untouched and the invariant is kept |
| UseWordle.Wordle.DeleteLetter | src/hooks/useWordle.ts:233-243 | a non-empty guess loses its last letter and the current row is redrawn; an empty guess is left alone |
| UseWordle.Wordle.AddLetter | src/hooks/useWordle.ts:246-256 | while the guess has fewer than five letters the letter is appended and the current row redrawn; otherwise nothing changes |
| UseWordle.Wordle.EndGame | src/hooks/useWordle.ts:206-223 | the status becomes won or lost; the toast is the row's message or the solution; the statistics record the outcome in row+1 guesses in the shared array; the statistics invariant is kept |
| UseWordle.Wordle.FinishReveal | src/hooks/useWordle.ts:203-230 | the reveal ends. On the solution the game is won, the toast is the row's message and a win in row+1 guesses is recorded. A wrong guess on the last row loses, shows the solution and records a loss. Otherwise the game moves to the next row with an empty guess and the statistics stay the same. The invariant and the statistics invariant are kept |
| UseWordle.Wordle.NewGame | src/hooks/useWordle.ts:136-153 | a fresh board on the new word, flags and toast cleared, statistics kept, the game accepting keys |
| UseWordle.Wordle.ClearInvalidWord | src/hooks/useWordle.ts:183 | the invalid-word flag is lowered and nothing else changes |
| UseWordle.Wordle.ClearToast | src/hooks/useWordle.ts:103-105 | the toast is emptied and nothing else changes |

## Left out

- localStorage, JSON and console output (`loadStats`, `saveStats`, `loadGameState`, `saveGameState`, `clearGameState`, src/utils/storage.ts:22-43, 72-104) are foreign I/O. A loaded record is a parameter, and saving is the pure `SaveProjection`.
- `getRandomWord` and `getDailyWord` depend on `Math.random` and the clock. The solution and the new word are parameters.
- The word lists in `../data/words` are not part of this model. `IsValidWord` takes the two lists as sets.
- Timers and durations are not modelled: the 600 ms invalid-word timer, the reveal delay and the stats pop-up. Their bodies are the methods `ClearInvalidWord` and `FinishReveal`, which run whenever the caller invokes them.
- The React components (board, rows, tiles, keyboard, modals, toast) are rendering only.
- Case mapping is ASCII only. JavaScript's `toLowerCase` also maps non-ASCII letters; for example the Kelvin sign lower-cases to `k`.
- Numbers are unbounded naturals. JavaScript's floating-point counters are not modelled.
- Storage.UpdateStats: requires, on a win, that numberOfGuesses is at least 1 and at most the distribution's length (six in the hook). Out of range, JavaScript writes `NaN` at index numberOfGuesses-1, outside the six entries: a new slot past the end when numberOfGuesses > 6, or a property that is not an array index (such as "-1") when numberOfGuesses <= 0, leaving the array's length and entries as they were.
- GameUtils.EvaluateGuess: requires a five-letter guess and solution. The hook only calls it on such words.
- UseWordle.GetInitialGameState: requires a saved game in play to have a five-letter solution and five-letter guesses. A hand-edited record that breaks this is not modelled.
- UseWordle.Wordle.constructor: requires a saved game in play to be consistent, as the save effect writes it (`SavedWords`, `RevealedSaveConsistent`), the loaded distribution to have six entries, and the new word to have five letters. The solution list that supplies it is not part of this model.
- UseWordle.Wordle.NewGame: requires the new word to have five letters. The solution list that supplies it is not part of this model.
- UseWordle.Wordle.NewGame: does not model a reveal timer still pending from before the reset. The reset is only offered once the game is over, and by then no reveal is running.
- UseWordle.Wordle.FinishReveal: reads the current guess, row and solution, not copies captured at submit time. Keys are blocked during a reveal, so these are the same values.
- Toasts other than their text are not modelled: no timing, no auto-dismiss.
