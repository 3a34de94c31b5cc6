/** The game state machine of src/hooks/useWordle.ts: the board builders,
    the initial state (restored or fresh), the save projection, and the hook
    itself as a class whose methods are the key handler, the deferred
    reveal commit and the new-game reset. */
module UseWordle {
  import opened Types
  import opened GameUtils
  import opened Storage

  /** The hook's game state (InitialGameState in the source). */
  datatype InitialGameState = InitialGameState(
    solution: string,
    guesses: seq<seq<Tile>>,
    currentGuess: string,
    currentRow: int,
    gameStatus: GameStatus,
    keyboardStatus: KeyboardStatus)

  // ---------------------------------------------------------------------
  // Board builders
  // ---------------------------------------------------------------------

  /** createEmptyBoard: MaxGuesses rows of blank tiles. */
  function CreateEmptyBoard(): (board: seq<seq<Tile>>)
    ensures |board| == MaxGuesses
    ensures forall r :: 0 <= r < MaxGuesses ==> board[r] == EmptyTiles(WordLength)
  {
    seq(MaxGuesses, _ => EmptyTiles(WordLength))
  }

  /** The row shown while typing: the guess letters as `Tbd`, padded with
      blank tiles up to WordLength. */
  function PendingRow(guess: string): (row: seq<Tile>)
    ensures |row| == Max(|guess|, WordLength)
    ensures forall i :: 0 <= i < |row| ==> (row[i].status == Tbd <==> i < |guess|) && row[i].status in {Tbd, Empty}
  {
    seq(Max(|guess|, WordLength), i requires 0 <= i < Max(|guess|, WordLength) =>
          if i < |guess| then Tile([guess[i]], Tbd) else Tile("", Empty))
  }

  /** createCurrentRowTiles: push a `Tbd` tile per letter, then blank tiles
      until the row is full. */
  method CreateCurrentRowTiles(guess: string) returns (tiles: seq<Tile>)
    ensures tiles == PendingRow(guess)
  {
    tiles := [];
    for i := 0 to |guess|
      invariant tiles == seq(i, j requires 0 <= j < i => Tile([guess[j]], Tbd))
    {
      tiles := tiles + [Tile([guess[i]], Tbd)];
    }
    while |tiles| < WordLength
      invariant |guess| <= |tiles| <= Max(|guess|, WordLength)
      invariant forall j :: 0 <= j < |tiles| ==>
                  tiles[j] == if j < |guess| then Tile([guess[j]], Tbd) else Tile("", Empty)
    {
      tiles := tiles + [Tile("", Empty)];
    }
  }

  lemma {:induction false} RowWordAppend(a: seq<Tile>, b: seq<Tile>)
    ensures RowWord(a + b) == RowWord(a) + RowWord(b)
    decreases |b|
  {
    if b == [] {
      assert a + b == a;
    } else {
      var init := b[..|b| - 1];
      var last := b[|b| - 1];
      assert (a + b)[..|a + b| - 1] == a + init;
      assert (a + b)[|a + b| - 1] == last;
      RowWordAppend(a, init);
      calc {
        RowWord(a + b);
        RowWord(a + init) + last.letter;
        RowWord(a) + RowWord(init) + last.letter;
        RowWord(a) + (RowWord(init) + last.letter);
      }
    }
  }

  /** A typed row spells the typed letters; its tiles are `Tbd` then
      `Empty`, and it is always at least WordLength long. */
  lemma PendingRowSpellsGuess(guess: string)
    ensures RowWord(PendingRow(guess)) == guess
    ensures |PendingRow(guess)| == Max(|guess|, WordLength)
    ensures forall i :: 0 <= i < |guess| ==> PendingRow(guess)[i] == Tile([guess[i]], Tbd)
    ensures forall i :: |guess| <= i < WordLength ==> PendingRow(guess)[i] == Tile("", Empty)
  {
    var n := |guess|;
    var tbd := seq(n, _ => Tbd);
    var pad: nat := Max(n, WordLength) - n;
    assert PendingRow(guess) == TilesFromGuess(guess, tbd) + EmptyTiles(pad);
    RowWordAppend(TilesFromGuess(guess, tbd), EmptyTiles(pad));
    TilesRoundTrip(guess, tbd);
    EmptyTilesBlank(pad);
  }

  // ---------------------------------------------------------------------
  // Restoring and starting a game
  // ---------------------------------------------------------------------

  /** The state of a brand new game with solution `word`. */
  function FreshState(word: string): (s: InitialGameState)
    ensures s.solution == word && s.currentGuess == "" && s.currentRow == 0
    ensures s.gameStatus == Playing && s.keyboardStatus == map[]
    ensures |s.guesses| == MaxGuesses && forall r :: 0 <= r < MaxGuesses ==> s.guesses[r] == EmptyTiles(WordLength)
  {
    InitialGameState(word, CreateEmptyBoard(), "", 0, Playing, map[])
  }

  /** The row of tiles an evaluated guess produces. */
  function EvaluatedRow(guess: string, solution: string): seq<Tile>
    requires |guess| == |solution| == WordLength
  {
    TilesFromGuess(guess, Evaluate(guess, solution))
  }

  ghost predicate AllWords(words: seq<string>) {
    forall i :: 0 <= i < |words| ==> |words[i]| == WordLength
  }

  function EvaluatedRows(words: seq<string>, solution: string): (rows: seq<seq<Tile>>)
    requires |solution| == WordLength && AllWords(words)
    ensures |rows| == |words|
  {
    seq(|words|, i requires 0 <= i < |words| => EvaluatedRow(words[i], solution))
  }

  /** `n` blank rows, none when n is not positive. */
  function EmptyRows(n: int): (rows: seq<seq<Tile>>)
    ensures |rows| == if n <= 0 then 0 else n
  {
    if n <= 0 then [] else seq(n, _ => EmptyTiles(WordLength))
  }

  /** The keyboard after evaluating and folding each word in order. */
  function FoldGuesses(keyboard: KeyboardStatus, words: seq<string>, solution: string): KeyboardStatus
    requires |solution| == WordLength && AllWords(words)
  {
    if words == [] then keyboard
    else
      var w := words[|words| - 1];
      KeyboardFold(FoldGuesses(keyboard, words[..|words| - 1], solution), w, Evaluate(w, solution))
  }

  /** A persisted record the evaluator can replay: five-letter solution and
      guesses. */
  ghost predicate Restorable(saved: PersistedGameState) {
    |saved.solution| == WordLength && AllWords(saved.guesses)
  }

  ghost predicate CanRestore(savedState: Option<PersistedGameState>) {
    savedState.Some? && savedState.value.gameStatus == Playing ==> Restorable(savedState.value)
  }

  /** getInitialGameState: a saved game still being played is rebuilt by
      re-evaluating its guesses (remaining rows blank, keyboard refolded);
      anything else starts a fresh game with `newWord`. */
  function InitialState(savedState: Option<PersistedGameState>, newWord: string): (s: InitialGameState)
    requires CanRestore(savedState)
    ensures s.gameStatus == Playing
    ensures savedState.Some? && savedState.value.gameStatus == Playing ==>
              && s.solution == savedState.value.solution
              && s.currentGuess == savedState.value.currentGuess
              && s.currentRow == savedState.value.currentRow
              && |s.guesses| == Max(|savedState.value.guesses|, MaxGuesses)
    ensures !(savedState.Some? && savedState.value.gameStatus == Playing) ==> s == FreshState(newWord)
  {
    if savedState.Some? && savedState.value.gameStatus == Playing then
      var saved := savedState.value;
      InitialGameState(
        saved.solution,
        EvaluatedRows(saved.guesses, saved.solution) + EmptyRows(MaxGuesses - |saved.guesses|),
        saved.currentGuess,
        saved.currentRow,
        saved.gameStatus,
        FoldGuesses(map[], saved.guesses, saved.solution))
    else
      FreshState(newWord)
  }

  /** getInitialGameState: replay the saved guesses of a game still being
      played and pad the board with blank rows, or start afresh. */
  method GetInitialGameState(savedState: Option<PersistedGameState>, newWord: string)
    returns (state: InitialGameState)
    requires CanRestore(savedState)
    ensures state == InitialState(savedState, newWord)
  {
    if savedState.Some? && savedState.value.gameStatus == Playing {
      var saved := savedState.value;
      var rows, keyboard := ReplayGuesses(saved.guesses, saved.solution);
      var board := PadBoard(rows);
      state := InitialGameState(saved.solution, board, saved.currentGuess,
                                saved.currentRow, saved.gameStatus, keyboard);
    } else {
      state := FreshState(newWord);
    }
  }

  /** The first loop of getInitialGameState: evaluate each saved guess in
      order, collecting its row of tiles and folding it into the keyboard. */
  method ReplayGuesses(words: seq<string>, solution: string)
    returns (rows: seq<seq<Tile>>, keyboard: KeyboardStatus)
    requires |solution| == WordLength && AllWords(words)
    ensures rows == EvaluatedRows(words, solution)
    ensures keyboard == FoldGuesses(map[], words, solution)
  {
    rows, keyboard := [], map[];
    var i := 0;
    while i < |words|
      invariant 0 <= i <= |words| && AllWords(words[..i])
      invariant rows == EvaluatedRows(words[..i], solution)
      invariant keyboard == FoldGuesses(map[], words[..i], solution)
    {
      var guess := words[i];
      var evaluation := EvaluateGuess(guess, solution);
      rows := rows + [TilesFromGuess(guess, evaluation)];
      keyboard := UpdateKeyboardStatus(keyboard, guess, evaluation);
      RowsStep(words, i, solution);
      FoldStep(words, i, solution);
      i := i + 1;
    }
    assert words[..i] == words;
  }

  /** The second loop of getInitialGameState: append blank rows until the
      board has MaxGuesses rows. */
  method PadBoard(rows: seq<seq<Tile>>) returns (board: seq<seq<Tile>>)
    ensures board == rows + EmptyRows(MaxGuesses - |rows|)
  {
    board := rows;
    while |board| < MaxGuesses
      invariant |rows| <= |board| <= Max(|rows|, MaxGuesses)
      invariant board == rows + EmptyRows(|board| - |rows|)
    {
      ghost var blank := |board| - |rows|;
      EmptyRowsSnoc(blank);
      assert rows + EmptyRows(blank) + [EmptyTiles(WordLength)] == rows + EmptyRows(blank + 1);
      board := board + [EmptyTiles(WordLength)];
    }
  }

  /** One blank row more. */
  lemma EmptyRowsSnoc(n: nat)
    ensures EmptyRows(n + 1) == EmptyRows(n) + [EmptyTiles(WordLength)]
  {
    assert EmptyRows(n + 1)[n] == EmptyTiles(WordLength);
  }

  /** One saved guess more: one evaluated row more. */
  lemma RowsStep(words: seq<string>, i: nat, solution: string)
    requires |solution| == WordLength && AllWords(words) && i < |words|
    ensures AllWords(words[..i + 1]) && AllWords(words[..i])
    ensures EvaluatedRows(words[..i + 1], solution)
            == EvaluatedRows(words[..i], solution) + [EvaluatedRow(words[i], solution)]
  {
    var prefix, shorter := words[..i + 1], words[..i];
    assert forall k :: 0 <= k < |prefix| ==> prefix[k] == words[k];
    assert forall k :: 0 <= k < |shorter| ==> shorter[k] == words[k];
    var lhs := EvaluatedRows(prefix, solution);
    var rows := EvaluatedRows(shorter, solution);
    forall k | 0 <= k < i
      ensures lhs[k] == rows[k]
    {
      assert lhs[k] == EvaluatedRow(prefix[k], solution);
      assert rows[k] == EvaluatedRow(shorter[k], solution);
    }
    assert lhs[i] == EvaluatedRow(words[i], solution);
    assert lhs == rows + [lhs[i]];
  }

  /** One saved guess more: one more fold. */
  lemma FoldStep(words: seq<string>, i: nat, solution: string)
    requires |solution| == WordLength && AllWords(words) && i < |words|
    ensures AllWords(words[..i + 1]) && AllWords(words[..i])
    ensures FoldGuesses(map[], words[..i + 1], solution)
            == KeyboardFold(FoldGuesses(map[], words[..i], solution), words[i], Evaluate(words[i], solution))
  {
    var prefix := words[..i + 1];
    assert prefix[..i] == words[..i];
  }

  // ---------------------------------------------------------------------
  // The save projection
  // ---------------------------------------------------------------------

  /** rows.slice(0, end) */
  function Slice(rows: seq<seq<Tile>>, end: int): (r: seq<seq<Tile>>)
    ensures |r| <= |rows|
    ensures 0 <= end ==> |r| <= end
  {
    if end >= 0 then rows[..if end < |rows| then end else |rows|]
    else rows[..if |rows| + end > 0 then |rows| + end else 0]
  }

  /** The words spelled by the rows, keeping only those of WordLength
      letters. */
  function FullRowWords(rows: seq<seq<Tile>>): (words: seq<string>)
    ensures AllWords(words)
    ensures |words| <= |rows|
  {
    if rows == [] then []
    else
      var w := RowWord(rows[|rows| - 1]);
      FullRowWords(rows[..|rows| - 1]) + if |w| == WordLength then [w] else []
  }

  /** The effect that saves the game: when there is a solution, store it
      with the words of the rows above the current one, the typed guess,
      the status and the row index. */
  function SaveProjection(state: InitialGameState): (r: Option<PersistedGameState>)
    ensures r.Some? <==> state.solution != ""
    ensures r.Some? ==> && r.value.solution == state.solution
                        && r.value.currentGuess == state.currentGuess
                        && r.value.gameStatus == state.gameStatus
                        && r.value.currentRow == state.currentRow
    ensures r.Some? ==> AllWords(r.value.guesses)
    ensures r.Some? && 0 <= state.currentRow ==> |r.value.guesses| <= state.currentRow
  {
    if state.solution == "" then None
    else Some(PersistedGameState(
      state.solution,
      FullRowWords(Slice(state.guesses, state.currentRow)),
      state.currentGuess,
      state.gameStatus,
      state.currentRow))
  }

  // ---------------------------------------------------------------------
  // Shape of a game in progress
  // ---------------------------------------------------------------------

  /** A row holding the evaluation of the five-letter word it spells. */
  ghost predicate IsEvaluatedRow(row: seq<Tile>, solution: string)
    requires |solution| == WordLength
  {
    var w := RowWord(row);
    |w| == WordLength && row == EvaluatedRow(w, solution)
  }

  /** Rows 0..n-1 of the board hold evaluated guesses. */
  ghost predicate EvaluatedBelow(state: InitialGameState, n: int)
    requires |state.solution| == WordLength && n <= |state.guesses|
  {
    forall r {:trigger IsEvaluatedRow(state.guesses[r], state.solution)} ::
      0 <= r < n ==> IsEvaluatedRow(state.guesses[r], state.solution)
  }

  /** The board is MaxGuesses rows of WordLength tiles, the row index is on
      the board, the typed guess fits a row and the rows below the current
      one are blank. */
  ghost predicate Shaped(state: InitialGameState) {
    && |state.solution| == WordLength
    && |state.guesses| == MaxGuesses
    && (forall r :: 0 <= r < MaxGuesses ==> |state.guesses[r]| == WordLength)
    && 0 <= state.currentRow < MaxGuesses
    && |state.currentGuess| <= WordLength
    && (forall r :: state.currentRow < r < MaxGuesses ==> state.guesses[r] == EmptyTiles(WordLength))
  }

  /** The statuses shown on a row. */
  function RowStatuses(row: seq<Tile>): (statuses: seq<LetterStatus>)
    ensures |statuses| == |row|
  {
    seq(|row|, i requires 0 <= i < |row| => row[i].status)
  }

  /** The keyboard after folding in, row by row, the letters and statuses
      the rows show; a row that does not show one letter per tile is
      skipped. */
  function FoldRows(keyboard: KeyboardStatus, rows: seq<seq<Tile>>): KeyboardStatus {
    if rows == [] then keyboard
    else
      var last := rows[|rows| - 1];
      var before := FoldRows(keyboard, rows[..|rows| - 1]);
      var w := RowWord(last);
      if |w| == |last| then KeyboardFold(before, w, RowStatuses(last)) else before
  }

  /** The keyboard the first n rows of the board account for. */
  function KeyboardOfRows(state: InitialGameState, n: nat): KeyboardStatus
    requires n <= |state.guesses|
  {
    FoldRows(map[], state.guesses[..n])
  }

  /** Between guesses: the rows above the current one are evaluated guesses
      and the keyboard reflects exactly those rows. */
  ghost predicate Settled(state: InitialGameState) {
    && Shaped(state)
    && EvaluatedBelow(state, state.currentRow)
    && state.keyboardStatus == KeyboardOfRows(state, state.currentRow)
  }

  /** After a valid submit: the current row is an evaluated guess as well,
      it spells the current guess, and the keyboard reflects it too. */
  ghost predicate Revealed(state: InitialGameState) {
    && Shaped(state)
    && |state.currentGuess| == WordLength
    && EvaluatedBelow(state, state.currentRow + 1)
    && RowWord(state.guesses[state.currentRow]) == state.currentGuess
    && state.keyboardStatus == KeyboardOfRows(state, state.currentRow + 1)
  }

  /** A persisted record as the save projection writes it for a game in
      play: one word per completed row. */
  ghost predicate Consistent(saved: PersistedGameState) {
    && Restorable(saved)
    && saved.gameStatus == Playing
    && saved.currentRow == |saved.guesses| < MaxGuesses
    && |saved.currentGuess| <= WordLength
  }

  lemma {:induction false} FullRowWordsOfEvaluated(rows: seq<seq<Tile>>)
    requires forall r :: 0 <= r < |rows| ==> |RowWord(rows[r])| == WordLength
    ensures |FullRowWords(rows)| == |rows|
    ensures forall r :: 0 <= r < |rows| ==> FullRowWords(rows)[r] == RowWord(rows[r])
  {
    if rows != [] {
      var init := rows[..|rows| - 1];
      forall r | 0 <= r < |init|
        ensures |RowWord(init[r])| == WordLength
      {
        assert init[r] == rows[r];
      }
      FullRowWordsOfEvaluated(init);
      assert FullRowWords(rows) == FullRowWords(init) + [RowWord(rows[|rows| - 1])];
    }
  }

  lemma FoldGuessesSnoc(keyboard: KeyboardStatus, words: seq<string>, w: string, solution: string)
    requires |solution| == WordLength && AllWords(words) && |w| == WordLength
    ensures FoldGuesses(keyboard, words + [w], solution)
            == KeyboardFold(FoldGuesses(keyboard, words, solution), w, Evaluate(w, solution))
  {
    assert (words + [w])[..|words|] == words;
  }

  /** The row built from an evaluated word is an evaluated row that spells
      the word and shows its evaluation. */
  lemma EvaluatedRowSpells(w: string, solution: string)
    requires |w| == |solution| == WordLength
    ensures IsEvaluatedRow(EvaluatedRow(w, solution), solution)
    ensures RowWord(EvaluatedRow(w, solution)) == w
    ensures RowStatuses(EvaluatedRow(w, solution)) == Evaluate(w, solution)
  {
    TilesRoundTrip(w, Evaluate(w, solution));
  }

  /** On evaluated rows, folding the statuses the rows show gives the same
      keyboard as re-evaluating the words they spell and folding those. */
  lemma {:induction false} FoldRowsOfEvaluated(keyboard: KeyboardStatus, rows: seq<seq<Tile>>, solution: string)
    requires |solution| == WordLength
    requires forall r :: 0 <= r < |rows| ==> IsEvaluatedRow(rows[r], solution)
    ensures FoldRows(keyboard, rows) == FoldGuesses(keyboard, FullRowWords(rows), solution)
  {
    if rows != [] {
      var init, last := rows[..|rows| - 1], rows[|rows| - 1];
      forall r | 0 <= r < |init|
        ensures IsEvaluatedRow(init[r], solution)
      {
        assert init[r] == rows[r];
      }
      FoldRowsOfEvaluated(keyboard, init, solution);
      assert IsEvaluatedRow(last, solution);
      var w := RowWord(last);
      EvaluatedRowSpells(w, solution);
      assert FullRowWords(rows) == FullRowWords(init) + [w];
      FoldGuessesSnoc(keyboard, FullRowWords(init), w, solution);
    }
  }

  /** The record saved for a settled game in play holds one word per
      completed row, in order, and the keyboard is the fold of those
      words. */
  lemma SavedWords(state: InitialGameState)
    requires Settled(state) && state.gameStatus == Playing
    ensures SaveProjection(state).Some? && Consistent(SaveProjection(state).value)
    ensures SaveProjection(state).value.guesses == FullRowWords(state.guesses[..state.currentRow])
    ensures forall r :: 0 <= r < state.currentRow ==>
              SaveProjection(state).value.guesses[r] == RowWord(state.guesses[r])
    ensures state.keyboardStatus == FoldGuesses(map[], SaveProjection(state).value.guesses, state.solution)
  {
    var row := state.currentRow;
    var board := state.guesses;
    var done := board[..row];
    assert Slice(board, row) == done;
    forall r | 0 <= r < |done|
      ensures done[r] == board[r] && IsEvaluatedRow(done[r], state.solution)
    {
      assert IsEvaluatedRow(board[r], state.solution);
    }
    FullRowWordsOfEvaluated(done);
    FoldRowsOfEvaluated(map[], done, state.solution);
  }

  /** Replaying the words a settled board's rows spell, then padding with
      blank rows, gives that board back with its current row blanked. */
  lemma ReplayedBoard(state: InitialGameState, words: seq<string>)
    requires Settled(state) && AllWords(words) && |words| == state.currentRow
    requires forall r :: 0 <= r < state.currentRow ==> words[r] == RowWord(state.guesses[r])
    ensures EvaluatedRows(words, state.solution) + EmptyRows(MaxGuesses - |words|)
            == state.guesses[state.currentRow := EmptyTiles(WordLength)]
  {
    var row := state.currentRow;
    var replayed := EvaluatedRows(words, state.solution) + EmptyRows(MaxGuesses - |words|);
    var expected := state.guesses[row := EmptyTiles(WordLength)];
    forall r | 0 <= r < MaxGuesses
      ensures replayed[r] == expected[r]
    {
      if r < row {
        assert IsEvaluatedRow(state.guesses[r], state.solution);
      }
    }
  }

  /** Saving a game in play and restoring the record rebuilds the same
      state, except that the current row comes back blank: the typed guess
      is kept as a string, its `Tbd` tiles are not. */
  lemma SaveThenRestore(state: InitialGameState, newWord: string)
    requires Settled(state) && state.gameStatus == Playing
    ensures SaveProjection(state).Some? && Consistent(SaveProjection(state).value)
    ensures InitialState(SaveProjection(state), newWord)
            == state.(guesses := state.guesses[state.currentRow := EmptyTiles(WordLength)])
  {
    SavedWords(state);
    ReplayedBoard(state, SaveProjection(state).value.guesses);
  }

  /** While a submitted row is being revealed, the saved record is still
      consistent: the rows above the current one are complete words, and
      the revealed row joins the record only when the row index moves on. */
  lemma RevealedSaveConsistent(state: InitialGameState)
    requires Revealed(state) && state.gameStatus == Playing
    ensures SaveProjection(state).Some? && Consistent(SaveProjection(state).value)
    ensures SaveProjection(state).value.guesses == FullRowWords(state.guesses[..state.currentRow])
  {
    var row := state.currentRow;
    var done := state.guesses[..row];
    assert Slice(state.guesses, row) == done;
    forall r | 0 <= r < |done|
      ensures |RowWord(done[r])| == WordLength
    {
      assert done[r] == state.guesses[r];
      assert IsEvaluatedRow(state.guesses[r], state.solution);
    }
    FullRowWordsOfEvaluated(done);
  }

  /** The restored board row by row: the evaluated saved guesses, then
      blank rows up to MaxGuesses. */
  lemma RestoredBoard(saved: PersistedGameState)
    requires Restorable(saved) && |saved.guesses| <= MaxGuesses
    ensures var board := EvaluatedRows(saved.guesses, saved.solution) + EmptyRows(MaxGuesses - |saved.guesses|);
            && |board| == MaxGuesses
            && (forall r :: 0 <= r < |saved.guesses| ==> board[r] == EvaluatedRow(saved.guesses[r], saved.solution))
            && (forall r :: |saved.guesses| <= r < MaxGuesses ==> board[r] == EmptyTiles(WordLength))
  {
  }

  /** A restored consistent record has the board's shape, and each row
      above the current one is the evaluation of the saved guess there. */
  lemma RestoredRows(saved: PersistedGameState, newWord: string)
    requires Consistent(saved)
    ensures Shaped(InitialState(Some(saved), newWord))
    ensures forall r :: 0 <= r < saved.currentRow ==>
              && IsEvaluatedRow(InitialState(Some(saved), newWord).guesses[r], saved.solution)
              && RowWord(InitialState(Some(saved), newWord).guesses[r]) == saved.guesses[r]
  {
    var board := InitialState(Some(saved), newWord).guesses;
    RestoredBoard(saved);
    forall r | 0 <= r < saved.currentRow
      ensures IsEvaluatedRow(board[r], saved.solution) && RowWord(board[r]) == saved.guesses[r]
    {
      EvaluatedRowSpells(saved.guesses[r], saved.solution);
    }
  }

  /** Rows that are the evaluations of `words` spell `words` and fold into
      the same keyboard as the words themselves. */
  lemma SpelledRows(rows: seq<seq<Tile>>, words: seq<string>, solution: string)
    requires |solution| == WordLength && AllWords(words) && |rows| == |words|
    requires forall r :: 0 <= r < |rows| ==>
               IsEvaluatedRow(rows[r], solution) && RowWord(rows[r]) == words[r]
    ensures FullRowWords(rows) == words
    ensures FoldRows(map[], rows) == FoldGuesses(map[], words, solution)
  {
    FullRowWordsOfEvaluated(rows);
    assert FullRowWords(rows) == words;
    FoldRowsOfEvaluated(map[], rows, solution);
  }

  /** A shaped state whose rows above the current one are the evaluations
      of `words`, and whose keyboard is those words folded in, is settled,
      and those rows spell `words`. */
  lemma SettledByWords(state: InitialGameState, words: seq<string>)
    requires Shaped(state) && state.currentRow == |words| && AllWords(words)
    requires forall r :: 0 <= r < state.currentRow ==>
               IsEvaluatedRow(state.guesses[r], state.solution) && RowWord(state.guesses[r]) == words[r]
    requires state.keyboardStatus == FoldGuesses(map[], words, state.solution)
    ensures Settled(state)
    ensures FullRowWords(state.guesses[..state.currentRow]) == words
  {
    var done := state.guesses[..state.currentRow];
    forall r | 0 <= r < |done|
      ensures IsEvaluatedRow(done[r], state.solution) && RowWord(done[r]) == words[r]
    {
      assert done[r] == state.guesses[r];
    }
    SpelledRows(done, words, state.solution);
  }

  /** A restored consistent record is a settled game whose completed rows
      spell the saved guesses. */
  lemma RestoredSettled(saved: PersistedGameState, newWord: string)
    requires Consistent(saved)
    ensures Settled(InitialState(Some(saved), newWord))
    ensures FullRowWords(InitialState(Some(saved), newWord).guesses[..saved.currentRow]) == saved.guesses
  {
    RestoredRows(saved, newWord);
    SettledByWords(InitialState(Some(saved), newWord), saved.guesses);
  }

  /** Restoring a consistent record gives a settled game whose save
      projection is that record again. */
  lemma RestoreThenSave(saved: PersistedGameState, newWord: string)
    requires Consistent(saved)
    ensures Settled(InitialState(Some(saved), newWord))
    ensures SaveProjection(InitialState(Some(saved), newWord)) == Some(saved)
  {
    var state := InitialState(Some(saved), newWord);
    var done := state.guesses[..saved.currentRow];
    RestoredSettled(saved, newWord);
    assert Slice(state.guesses, saved.currentRow) == done;
    assert SaveProjection(state).value.guesses == saved.guesses;
  }

  /** A fresh game is settled and saves as a record with no guesses. */
  lemma FreshStateSettled(word: string)
    requires |word| == WordLength
    ensures Settled(FreshState(word))
    ensures SaveProjection(FreshState(word)) == Some(PersistedGameState(word, [], "", Playing, 0))
  {
    assert FreshState(word).guesses[..0] == [];
  }

  /** Whatever getInitialGameState returns from a consistent record or from
      a fresh five-letter word is a settled game in play. */
  lemma InitialStateSettled(savedState: Option<PersistedGameState>, newWord: string)
    requires |newWord| == WordLength
    requires savedState.Some? && savedState.value.gameStatus == Playing ==> Consistent(savedState.value)
    ensures Settled(InitialState(savedState, newWord))
    ensures InitialState(savedState, newWord).gameStatus == Playing
  {
    if savedState.Some? && savedState.value.gameStatus == Playing {
      RestoreThenSave(savedState.value, newWord);
    } else {
      FreshStateSettled(newWord);
    }
  }

  // ---------------------------------------------------------------------
  // Transitions on the state value
  // ---------------------------------------------------------------------

  /** The current guess replaced by `guess` and the current row redrawn. */
  function Retyped(state: InitialGameState, guess: string): (s: InitialGameState)
    requires 0 <= state.currentRow < |state.guesses|
    ensures |s.guesses| == |state.guesses|
    ensures s.currentGuess == guess && RowWord(s.guesses[state.currentRow]) == guess
    ensures forall r :: 0 <= r < |state.guesses| && r != state.currentRow ==> s.guesses[r] == state.guesses[r]
    ensures s.solution == state.solution && s.currentRow == state.currentRow
    ensures s.gameStatus == state.gameStatus && s.keyboardStatus == state.keyboardStatus
  {
    PendingRowSpellsGuess(guess);
    state.(currentGuess := guess, guesses := state.guesses[state.currentRow := PendingRow(guess)])
  }

  /** The current guess evaluated into the current row and folded into the
      keyboard. */
  function Submitted(state: InitialGameState): (s: InitialGameState)
    requires 0 <= state.currentRow < |state.guesses|
    requires |state.currentGuess| == |state.solution| == WordLength
    ensures |s.guesses| == |state.guesses|
    ensures RowWord(s.guesses[state.currentRow]) == state.currentGuess
    ensures RowStatuses(s.guesses[state.currentRow]) == Evaluate(state.currentGuess, state.solution)
    ensures forall r :: 0 <= r < |state.guesses| && r != state.currentRow ==> s.guesses[r] == state.guesses[r]
    ensures s.keyboardStatus == KeyboardFold(state.keyboardStatus, state.currentGuess,
                                             Evaluate(state.currentGuess, state.solution))
    ensures s.solution == state.solution && s.currentGuess == state.currentGuess
    ensures s.currentRow == state.currentRow && s.gameStatus == state.gameStatus
  {
    var evaluation := Evaluate(state.currentGuess, state.solution);
    TilesRoundTrip(state.currentGuess, evaluation);
    state.(guesses := state.guesses[state.currentRow := TilesFromGuess(state.currentGuess, evaluation)],
           keyboardStatus := KeyboardFold(state.keyboardStatus, state.currentGuess, evaluation))
  }

  /** Retyping a guess of at most five letters keeps a game settled. */
  lemma RetypedSettled(state: InitialGameState, guess: string)
    requires Settled(state) && |guess| <= WordLength
    ensures Settled(Retyped(state, guess))
  {
    var next := Retyped(state, guess);
    PendingRowSpellsGuess(guess);
    assert next.guesses[..state.currentRow] == state.guesses[..state.currentRow];
    forall r | 0 <= r < state.currentRow
      ensures IsEvaluatedRow(next.guesses[r], next.solution)
    {
      assert next.guesses[r] == state.guesses[r];
      assert IsEvaluatedRow(state.guesses[r], state.solution);
    }
  }

  /** Submitting folds exactly the new row into the keyboard the rows
      above it account for. */
  lemma SubmittedKeyboard(state: InitialGameState)
    requires Settled(state) && |state.currentGuess| == WordLength
    ensures KeyboardOfRows(Submitted(state), state.currentRow + 1) == Submitted(state).keyboardStatus
  {
    var next := Submitted(state);
    var row := state.currentRow;
    var tiles := EvaluatedRow(state.currentGuess, state.solution);
    EvaluatedRowSpells(state.currentGuess, state.solution);
    var rows := next.guesses[..row + 1];
    assert rows[..row] == state.guesses[..row];
    assert rows[row] == tiles;
    assert FoldRows(map[], rows)
           == KeyboardFold(FoldRows(map[], state.guesses[..row]), state.currentGuess, RowStatuses(tiles));
  }

  /** Submitting a full guess of a settled game reveals it. */
  lemma SubmittedRevealed(state: InitialGameState)
    requires Settled(state) && |state.currentGuess| == WordLength
    ensures Revealed(Submitted(state))
  {
    var next := Submitted(state);
    var row := state.currentRow;
    EvaluatedRowSpells(state.currentGuess, state.solution);
    forall r | 0 <= r < row + 1
      ensures IsEvaluatedRow(next.guesses[r], next.solution)
    {
      if r < row {
        assert next.guesses[r] == state.guesses[r];
        assert IsEvaluatedRow(state.guesses[r], state.solution);
      }
    }
    SubmittedKeyboard(state);
    assert Shaped(next);
  }

  /** Moving a revealed game that is not on its last row to the next row,
      with an empty guess, settles it. */
  lemma AdvanceSettles(state: InitialGameState)
    requires Revealed(state) && state.currentRow < MaxGuesses - 1
    ensures Settled(state.(currentRow := state.currentRow + 1, currentGuess := ""))
  {
    var next := state.(currentRow := state.currentRow + 1, currentGuess := "");
    assert next.guesses == state.guesses && next.solution == state.solution;
    forall r | 0 <= r < next.currentRow
      ensures IsEvaluatedRow(next.guesses[r], next.solution)
    {
      assert IsEvaluatedRow(state.guesses[r], state.solution);
    }
  }

  /** The phase invariant of the hook: settled while a guess is typed,
      revealed while a reveal runs and after the game ends; a reveal only
      runs in a game in play; a won game ended on its solution and a lost
      one on a wrong guess in the last row. */
  ghost predicate Coherent(state: InitialGameState, revealing: bool) {
    && (if revealing || state.gameStatus != Playing then Revealed(state) else Settled(state))
    && (revealing ==> state.gameStatus == Playing)
    && (state.gameStatus == Won ==> state.currentGuess == state.solution)
    && (state.gameStatus == Lost ==>
          state.currentRow == MaxGuesses - 1 && state.currentGuess != state.solution)
  }

  /** Ending the game on a revealed row keeps the invariant, provided a win
      is on the solution and a loss on a wrong guess in the last row. */
  lemma GameOverCoherent(state: InitialGameState, status: GameStatus)
    requires Revealed(state) && status != Playing
    requires status == Won ==> state.currentGuess == state.solution
    requires status == Lost ==> state.currentRow == MaxGuesses - 1 && state.currentGuess != state.solution
    ensures Coherent(state.(gameStatus := status), false)
  {
    var next := state.(gameStatus := status);
    assert next.guesses == state.guesses && next.keyboardStatus == state.keyboardStatus;
    assert Revealed(next);
  }


  // ---------------------------------------------------------------------
  // Keys
  // ---------------------------------------------------------------------

  /** What the key handler makes of a key name once lower-cased. */
  datatype Key = EnterKey | BackspaceKey | LetterKey(upper: char) | OtherKey

  /** Lower-case the key name, then: "enter"; "backspace" or "delete"; a
      single letter a-z, carried in upper case; anything else. */
  function ClassifyKey(key: string): (k: Key)
    ensures k.LetterKey? ==> |key| == 1 && 'A' <= k.upper <= 'Z' && ToLower(k.upper) == ToLower(key[0])
    ensures |key| == 1 && ('a' <= key[0] <= 'z' || 'A' <= key[0] <= 'Z') ==> k.LetterKey?
    ensures k == EnterKey <==> LowerString(key) == "enter"
    ensures k == BackspaceKey <==> LowerString(key) == "backspace" || LowerString(key) == "delete"
    ensures k == OtherKey <==>
              && LowerString(key) !in {"enter", "backspace", "delete"}
              && !(|key| == 1 && 'a' <= ToLower(key[0]) <= 'z')
  {
    var normalized := LowerString(key);
    if normalized == "enter" then EnterKey
    else if normalized == "backspace" || normalized == "delete" then BackspaceKey
    else if |normalized| == 1 && 'a' <= normalized[0] <= 'z' then LetterKey(ToUpper(normalized[0]))
    else OtherKey
  }

  /** Key names are matched without regard to case. */
  lemma ClassifyIgnoresCase(key: string)
    ensures ClassifyKey(LowerString(key)) == ClassifyKey(key)
  {
    LowerStringIdempotent(key);
  }

  /** The toast shown on a win after row `row` (0-based); the fallback is
      only reached outside the six rows. */
  function WinMessage(row: int): (m: string)
    ensures 0 <= row < MaxGuesses ==> m != "Nice!"
  {
    if 0 <= row < MaxGuesses
    then ["Genius!", "Magnificent!", "Impressive!", "Splendid!", "Great!", "Phew!"][row]
    else "Nice!"
  }

  // ---------------------------------------------------------------------
  // The hook
  // ---------------------------------------------------------------------

  /** The useWordle hook: its state cells are fields, the key handler, the
      body of the reveal timeout and the reset are methods. */
  class Wordle {
    var gameState: InitialGameState
    var isInvalidWord: bool
    var isRevealing: bool
    var toastMessage: string
    var stats: GameStats
    const validGuesses: set<string>
    const solutions: set<string>

    /** Six distribution entries and the phase invariant. */
    ghost predicate Valid()
      reads this
    {
      stats.guessDistribution.Length == MaxGuesses && Coherent(gameState, isRevealing)
    }

    /** Keys are handled only in a game in play with no reveal running. */
    predicate Accepting()
      reads this
    {
      gameState.gameStatus == Playing && !isRevealing
    }

    /** Mounting the hook: the initial state from the saved record or a new
        word, the loaded statistics, no flags, no toast. */
    constructor(savedState: Option<PersistedGameState>, newWord: string, loadedStats: GameStats,
                validGuesses: set<string>, solutions: set<string>)
      requires |newWord| == WordLength
      requires savedState.Some? && savedState.value.gameStatus == Playing ==> Consistent(savedState.value)
      requires loadedStats.guessDistribution.Length == MaxGuesses
      ensures Valid() && Accepting()
      ensures gameState == InitialState(savedState, newWord)
      ensures !isInvalidWord && !isRevealing && toastMessage == "" && stats == loadedStats
      ensures this.validGuesses == validGuesses && this.solutions == solutions
    {
      var initial := GetInitialGameState(savedState, newWord);
      InitialStateSettled(savedState, newWord);
      gameState := initial;
      isInvalidWord := false;
      isRevealing := false;
      toastMessage := "";
      stats := loadedStats;
      this.validGuesses := validGuesses;
      this.solutions := solutions;
    }

    /** The enter branch of handleKeyPress. A guess that is not full does
        nothing; an unknown word raises the invalid-word flag and its toast;
        a known word is evaluated into the current row, folded into the
        keyboard, and the reveal starts. */
    method SubmitGuess()
      requires Valid() && Accepting()
      modifies this
      ensures Valid() && stats == old(stats)
      ensures var s, g := old(gameState), old(gameState.currentGuess);
              if |g| != WordLength then
                gameState == s && isInvalidWord == old(isInvalidWord) && !isRevealing
                && toastMessage == old(toastMessage)
              else if !IsValidWord(g, validGuesses, solutions) then
                gameState == s && isInvalidWord && !isRevealing && toastMessage == "Not in word list"
              else
                gameState == Submitted(s) && isInvalidWord == old(isInvalidWord) && isRevealing
                && toastMessage == old(toastMessage)
    {
      var guess := gameState.currentGuess;
      if |guess| != WordLength {
        return;
      }
      if !IsValidWord(guess, validGuesses, solutions) {
        isInvalidWord := true;
        toastMessage := "Not in word list";
        return;
      }
      var evaluation := EvaluateGuess(guess, gameState.solution);
      isRevealing := true;
      var newGuesses := gameState.guesses[gameState.currentRow := TilesFromGuess(guess, evaluation)];
      var newKeyboardStatus := UpdateKeyboardStatus(gameState.keyboardStatus, guess, evaluation);
      SubmittedRevealed(gameState);
      gameState := gameState.(guesses := newGuesses, keyboardStatus := newKeyboardStatus);
    }

    /** The backspace branch of handleKeyPress: the last letter of a
        non-empty guess is dropped and the current row redrawn. */
    method DeleteLetter()
      requires Valid() && Accepting()
      modifies this
      ensures Valid() && Accepting() && stats == old(stats)
      ensures var g := old(gameState.currentGuess);
              gameState == if |g| > 0 then Retyped(old(gameState), g[..|g| - 1]) else old(gameState)
      ensures isInvalidWord == old(isInvalidWord) && toastMessage == old(toastMessage)
    {
      var guess := gameState.currentGuess;
      if |guess| > 0 {
        var newGuess := guess[..|guess| - 1];
        var tiles := CreateCurrentRowTiles(newGuess);
        RetypedSettled(gameState, newGuess);
        gameState := gameState.(currentGuess := newGuess,
                                guesses := gameState.guesses[gameState.currentRow := tiles]);
      }
    }

    /** The letter branch of handleKeyPress: while the guess is short the
        letter is appended and the current row redrawn. */
    method AddLetter(c: char)
      requires Valid() && Accepting()
      modifies this
      ensures Valid() && Accepting() && stats == old(stats)
      ensures var g := old(gameState.currentGuess);
              gameState == if |g| < WordLength then Retyped(old(gameState), g + [c]) else old(gameState)
      ensures isInvalidWord == old(isInvalidWord) && toastMessage == old(toastMessage)
    {
      var guess := gameState.currentGuess;
      if |guess| < WordLength {
        var newGuess := guess + [c];
        var tiles := CreateCurrentRowTiles(newGuess);
        RetypedSettled(gameState, newGuess);
        gameState := gameState.(currentGuess := newGuess,
                                guesses := gameState.guesses[gameState.currentRow := tiles]);
      }
    }

    /** handleKeyPress. Nothing happens unless the game is in play with no
        reveal running; otherwise the lower-cased key selects the enter,
        backspace or letter branch, and any other key does nothing. */
    method KeyPress(key: string)
      requires Valid()
      modifies this
      ensures Valid() && stats == old(stats)
      ensures !old(Accepting()) ==>
                gameState == old(gameState) && isInvalidWord == old(isInvalidWord)
                && isRevealing == old(isRevealing) && toastMessage == old(toastMessage)
      ensures old(Accepting()) ==>
                var s, g := old(gameState), old(gameState.currentGuess);
                match ClassifyKey(key)
                case LetterKey(c) =>
                  gameState == (if |g| < WordLength then Retyped(s, g + [c]) else s)
                  && isInvalidWord == old(isInvalidWord) && !isRevealing && toastMessage == old(toastMessage)
                case BackspaceKey =>
                  gameState == (if |g| > 0 then Retyped(s, g[..|g| - 1]) else s)
                  && isInvalidWord == old(isInvalidWord) && !isRevealing && toastMessage == old(toastMessage)
                case EnterKey =>
                  if |g| != WordLength then
                    gameState == s && isInvalidWord == old(isInvalidWord) && !isRevealing
                    && toastMessage == old(toastMessage)
                  else if !IsValidWord(g, validGuesses, solutions) then
                    gameState == s && isInvalidWord && !isRevealing && toastMessage == "Not in word list"
                  else
                    gameState == Submitted(s) && isInvalidWord == old(isInvalidWord) && isRevealing
                    && toastMessage == old(toastMessage)
                case OtherKey =>
                  gameState == s && isInvalidWord == old(isInvalidWord) && !isRevealing
                  && toastMessage == old(toastMessage)
    {
      if gameState.gameStatus != Playing || isRevealing {
        return;
      }
      match ClassifyKey(key) {
        case EnterKey => SubmitGuess();
        case BackspaceKey => DeleteLetter();
        case LetterKey(c) => AddLetter(c);
        case OtherKey =>
      }
    }

    /** The game ends on the revealed row: won on the solution, lost on a
        wrong guess in the last row. The status, the toast and the
        statistics record the outcome; the statistics invariant is kept. */
    method EndGame(won: bool)
      requires stats.guessDistribution.Length == MaxGuesses
      requires !isRevealing && gameState.gameStatus == Playing && Revealed(gameState)
      requires won == (gameState.currentGuess == gameState.solution)
      requires !won ==> gameState.currentRow == MaxGuesses - 1
      modifies this, stats.guessDistribution
      ensures Valid() && !isRevealing && isInvalidWord == old(isInvalidWord)
      ensures gameState == old(gameState).(gameStatus := if won then Won else Lost)
      ensures toastMessage == if won then WinMessage(old(gameState.currentRow)) else old(gameState.solution)
      ensures Recorded(old(stats), old(stats.guessDistribution[..]), stats, won, old(gameState.currentRow) + 1)
      ensures old(StatsInvariant(stats)) ==> StatsInvariant(stats)
    {
      var row := gameState.currentRow;
      if won {
        GameOverCoherent(gameState, Won);
        toastMessage := WinMessage(row);
        gameState := gameState.(gameStatus := Won);
      } else {
        GameOverCoherent(gameState, Lost);
        toastMessage := gameState.solution;
        gameState := gameState.(gameStatus := Lost);
      }
      stats := UpdateStats(stats, won, row + 1);
    }

    /** The body of the reveal timeout: the reveal ends; a guess equal to
        the solution wins and records a win in `currentRow + 1` guesses; a
        wrong guess on the last row loses and records a loss; otherwise the
        game moves to the next row with an empty guess. */
    method FinishReveal()
      requires Valid() && isRevealing
      modifies this, stats.guessDistribution
      ensures Valid() && !isRevealing && isInvalidWord == old(isInvalidWord)
      ensures old(gameState.currentGuess == gameState.solution) ==>
                gameState == old(gameState).(gameStatus := Won)
                && toastMessage == WinMessage(old(gameState.currentRow))
                && Recorded(old(stats), old(stats.guessDistribution[..]), stats, true, old(gameState.currentRow) + 1)
      ensures old(gameState.currentGuess != gameState.solution && gameState.currentRow == MaxGuesses - 1) ==>
                gameState == old(gameState).(gameStatus := Lost)
                && toastMessage == old(gameState.solution)
                && Recorded(old(stats), old(stats.guessDistribution[..]), stats, false, MaxGuesses)
      ensures old(gameState.currentGuess != gameState.solution && gameState.currentRow < MaxGuesses - 1) ==>
                gameState == old(gameState).(currentRow := old(gameState.currentRow) + 1, currentGuess := "")
                && toastMessage == old(toastMessage)
                && stats == old(stats) && stats.guessDistribution[..] == old(stats.guessDistribution[..])
      ensures old(StatsInvariant(stats)) ==> StatsInvariant(stats)
    {
      isRevealing := false;
      var row := gameState.currentRow;
      if gameState.currentGuess == gameState.solution {
        EndGame(true);
      } else if row == MaxGuesses - 1 {
        EndGame(false);
      } else {
        AdvanceSettles(gameState);
        gameState := gameState.(currentRow := row + 1, currentGuess := "");
      }
    }

    /** initializeNewGame: a fresh board for `newWord` and every flag and
        the toast cleared; statistics are kept. */
    method NewGame(newWord: string)
      requires Valid() && |newWord| == WordLength
      modifies this
      ensures Valid() && Accepting()
      ensures gameState == FreshState(newWord)
      ensures !isInvalidWord && !isRevealing && toastMessage == "" && stats == old(stats)
    {
      FreshStateSettled(newWord);
      gameState := InitialGameState(newWord, CreateEmptyBoard(), "", 0, Playing, map[]);
      isInvalidWord := false;
      isRevealing := false;
      toastMessage := "";
    }

    /** The 600 ms timer after an unknown word: the flag is lowered. */
    method ClearInvalidWord()
      requires Valid()
      modifies this
      ensures Valid() && !isInvalidWord
      ensures gameState == old(gameState) && isRevealing == old(isRevealing)
      ensures toastMessage == old(toastMessage) && stats == old(stats)
    {
      isInvalidWord := false;
    }

    /** clearToast: the toast message is emptied. */
    method ClearToast()
      requires Valid()
      modifies this
      ensures Valid() && toastMessage == ""
      ensures gameState == old(gameState) && isRevealing == old(isRevealing)
      ensures isInvalidWord == old(isInvalidWord) && stats == old(stats)
    {
      toastMessage := "";
    }
  }
}
