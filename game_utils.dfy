/** Guess evaluation, keyboard folding, tile builders and the word-list
    predicate of src/utils/gameUtils.ts. */
module GameUtils {
  import opened Types

  // ---------------------------------------------------------------------
  // Case mapping (ASCII) and the word list
  // ---------------------------------------------------------------------

  function ToLower(c: char): char {
    if 'A' <= c <= 'Z' then (c as int - 'A' as int + 'a' as int) as char else c
  }

  function ToUpper(c: char): char {
    if 'a' <= c <= 'z' then (c as int - 'a' as int + 'A' as int) as char else c
  }

  function LowerString(s: string): (r: string)
    ensures |r| == |s|
  {
    seq(|s|, i requires 0 <= i < |s| => ToLower(s[i]))
  }

  /** A word is accepted when its lower-case form is in either list. The
      lists themselves are data the model takes as parameters. */
  predicate IsValidWord(word: string, validGuesses: set<string>, solutions: set<string>)
    ensures LowerString(word) == word && (word in validGuesses || word in solutions) ==>
              IsValidWord(word, validGuesses, solutions)
    ensures LowerString(word) !in validGuesses + solutions ==> !IsValidWord(word, validGuesses, solutions)
  {
    LowerString(word) in validGuesses || LowerString(word) in solutions
  }

  /** Lower-casing is idempotent on every string. */
  lemma {:induction false} LowerStringIdempotent(s: string)
    ensures LowerString(LowerString(s)) == LowerString(s)
  {
    var once := LowerString(s);
    forall i | 0 <= i < |s|
      ensures LowerString(once)[i] == once[i]
    {
      assert once[i] == ToLower(s[i]);
    }
  }

  /** The word check ignores case: a word and its lower-case form are
      accepted together. */
  lemma ValidWordIgnoresCase(word: string, validGuesses: set<string>, solutions: set<string>)
    ensures IsValidWord(word, validGuesses, solutions)
            == IsValidWord(LowerString(word), validGuesses, solutions)
  {
    LowerStringIdempotent(word);
  }

  // ---------------------------------------------------------------------
  // Guess evaluation: the two passes as functions
  // ---------------------------------------------------------------------

  /** State of the evaluation: the statuses so far and the solution indices
      already consumed by a correct or present mark. */
  datatype Pass = Pass(result: seq<LetterStatus>, matched: set<int>)

  /** Solution index k still holds letter c and has not been consumed. */
  predicate Unmatched(solution: string, c: char, matched: set<int>, k: int)
    requires 0 <= k < |solution|
  {
    solution[k] == c && k !in matched
  }

  /** The first index at or after `from` that holds c and is not consumed,
      or -1 (the findIndex call of the second pass). */
  function FindUnmatchedFrom(solution: string, c: char, matched: set<int>, from: nat): (j: int)
    requires from <= |solution|
    ensures j == -1 || from <= j < |solution|
    ensures j == -1 ==> forall k :: from <= k < |solution| ==> !Unmatched(solution, c, matched, k)
    ensures j != -1 ==> Unmatched(solution, c, matched, j)
                        && forall k :: from <= k < j ==> !Unmatched(solution, c, matched, k)
    decreases |solution| - from
  {
    if from == |solution| then -1
    else if Unmatched(solution, c, matched, from) then from
    else FindUnmatchedFrom(solution, c, matched, from + 1)
  }

  function FindUnmatched(solution: string, c: char, matched: set<int>): (j: int)
    ensures j == -1 || 0 <= j < |solution|
    ensures j == -1 ==> forall k :: 0 <= k < |solution| ==> !Unmatched(solution, c, matched, k)
    ensures j != -1 ==> Unmatched(solution, c, matched, j)
                        && forall k :: 0 <= k < j ==> !Unmatched(solution, c, matched, k)
  {
    FindUnmatchedFrom(solution, c, matched, 0)
  }

  /** First pass: exact matches become `Correct` and are consumed; all other
      positions start out `Absent`. */
  function FirstPass(guess: string, solution: string): (p: Pass)
    requires |guess| == |solution| == WordLength
    ensures |p.result| == WordLength
    ensures forall i :: 0 <= i < WordLength ==>
              (p.result[i] == Correct <==> guess[i] == solution[i]) && p.result[i] in {Correct, Absent}
    ensures forall j :: j in p.matched <==> 0 <= j < WordLength && p.result[j] == Correct
  {
    Pass(seq(WordLength, i requires 0 <= i < WordLength =>
               if guess[i] == solution[i] then Correct else Absent),
         set i | 0 <= i < WordLength && guess[i] == solution[i])
  }

  /** Second pass after guess positions 0..k-1: a position that is not
      correct takes the first unconsumed occurrence of its letter, if any,
      and becomes `Present`. */
  function SecondPass(guess: string, solution: string, k: nat): (p: Pass)
    requires |guess| == |solution| == WordLength && k <= WordLength
    ensures |p.result| == WordLength
    ensures forall i :: 0 <= i < WordLength ==> p.result[i].IsEvaluated()
    decreases k
  {
    if k == 0 then FirstPass(guess, solution)
    else
      var p := SecondPass(guess, solution, k - 1);
      if p.result[k - 1] == Correct then p
      else
        var j := FindUnmatched(solution, guess[k - 1], p.matched);
        if j == -1 then p else Pass(p.result[k - 1 := Present], p.matched + {j})
  }

  /** The statuses evaluateGuess returns. */
  function Evaluate(guess: string, solution: string): (r: seq<LetterStatus>)
    requires |guess| == |solution| == WordLength
    ensures |r| == WordLength
    ensures forall i :: 0 <= i < WordLength ==> r[i].IsEvaluated()
  {
    SecondPass(guess, solution, WordLength).result
  }

  /** The state the exact-match loop leaves is the first pass. */
  lemma FirstPassDone(guess: string, solution: string, result: seq<LetterStatus>, matched: set<int>)
    requires |guess| == |solution| == WordLength == |result|
    requires forall i :: 0 <= i < WordLength ==>
               result[i] == if guess[i] == solution[i] then Correct else Absent
    requires matched == set i | 0 <= i < WordLength && guess[i] == solution[i]
    ensures Pass(result, matched) == SecondPass(guess, solution, 0)
  {
    assert result == FirstPass(guess, solution).result;
  }

  /** evaluateGuess: fill with `Absent`, mark exact matches, then search the
      unconsumed solution letters for each remaining position. */
  method EvaluateGuess(guess: string, solution: string) returns (result: seq<LetterStatus>)
    requires |guess| == |solution| == WordLength
    ensures result == Evaluate(guess, solution)
  {
    result := seq(WordLength, _ => Absent);
    var matchedIndices: set<int> := {};

    var index := 0;
    while index < |guess|
      invariant 0 <= index <= WordLength && |result| == WordLength
      invariant forall i :: 0 <= i < WordLength ==>
                  result[i] == if i < index && guess[i] == solution[i] then Correct else Absent
      invariant matchedIndices == set i | 0 <= i < index && guess[i] == solution[i]
    {
      if guess[index] == solution[index] {
        result := result[index := Correct];
        matchedIndices := matchedIndices + {index};
      }
      index := index + 1;
    }
    FirstPassDone(guess, solution, result, matchedIndices);

    var guessIndex := 0;
    while guessIndex < |guess|
      invariant 0 <= guessIndex <= WordLength
      invariant Pass(result, matchedIndices) == SecondPass(guess, solution, guessIndex)
    {
      if result[guessIndex] != Correct {
        var solutionIndex := FindUnmatched(solution, guess[guessIndex], matchedIndices);
        if solutionIndex != -1 {
          result := result[guessIndex := Present];
          matchedIndices := matchedIndices + {solutionIndex};
        }
      }
      guessIndex := guessIndex + 1;
    }
  }

  // ---------------------------------------------------------------------
  // Counting marks against the solution's letters
  // ---------------------------------------------------------------------

  predicate IsMark(st: LetterStatus) {
    st == Correct || st == Present
  }

  /** The guess letters at positions 0..n-1 marked correct or present. */
  function MarkedLetters(guess: string, result: seq<LetterStatus>, n: nat): multiset<char>
    requires n <= |guess| && n <= |result|
  {
    if n == 0 then multiset{}
    else MarkedLetters(guess, result, n - 1) + (if IsMark(result[n - 1]) then multiset{guess[n - 1]} else multiset{})
  }

  /** The solution letters at consumed indices 0..n-1. */
  function ConsumedLetters(solution: string, matched: set<int>, n: nat): multiset<char>
    requires n <= |solution|
  {
    if n == 0 then multiset{}
    else ConsumedLetters(solution, matched, n - 1) + (if n - 1 in matched then multiset{solution[n - 1]} else multiset{})
  }

  /** Number of positions of the guess holding c that are marked correct or present. */
  function MarkCount(guess: string, result: seq<LetterStatus>, c: char): nat
    requires |guess| <= |result|
  {
    MarkedLetters(guess, result, |guess|)[c]
  }

  /** Some solution position holds c and is not itself an exact match. */
  ghost predicate OccursOffTarget(guess: string, solution: string, c: char)
    requires |guess| == |solution|
  {
    exists j :: 0 <= j < |solution| && solution[j] == c && guess[j] != solution[j]
  }

  /** Marked letters depend only on the statuses of the first n positions. */
  lemma {:induction false} MarkedAgree(guess: string, result: seq<LetterStatus>, other: seq<LetterStatus>, n: nat)
    requires n <= |guess| && n <= |result| && n <= |other|
    requires forall k :: 0 <= k < n ==> other[k] == result[k]
    ensures MarkedLetters(guess, other, n) == MarkedLetters(guess, result, n)
  {
    if n > 0 {
      MarkedAgree(guess, result, other, n - 1);
      assert other[n - 1] == result[n - 1];
    }
  }

  /** Marking the last of n positions adds its letter to the marked letters. */
  lemma MarkLastPosition(guess: string, result: seq<LetterStatus>, n: nat)
    requires 0 < n <= |guess| && n <= |result|
    requires !IsMark(result[n - 1])
    ensures MarkedLetters(guess, result[n - 1 := Present], n)
            == MarkedLetters(guess, result, n) + multiset{guess[n - 1]}
  {
    MarkedAgree(guess, result, result[n - 1 := Present], n - 1);
  }

  /** Marking an earlier position i keeps its effect when position n-1 is
      added. */
  lemma MarkEarlierPosition(guess: string, result: seq<LetterStatus>, n: nat, i: nat)
    requires 0 < n <= |guess| && n <= |result| && i < n - 1
    requires MarkedLetters(guess, result[i := Present], n - 1)
             == MarkedLetters(guess, result, n - 1) + multiset{guess[i]}
    ensures MarkedLetters(guess, result[i := Present], n)
            == MarkedLetters(guess, result, n) + multiset{guess[i]}
  {
    assert result[i := Present][n - 1] == result[n - 1];
  }

  /** Marking an unmarked position i adds guess[i] to the marked letters. */
  lemma {:induction false} MarkedAfterMark(guess: string, result: seq<LetterStatus>, n: nat, i: nat)
    requires n <= |guess| && n <= |result| && i < n
    requires !IsMark(result[i])
    ensures MarkedLetters(guess, result[i := Present], n) == MarkedLetters(guess, result, n) + multiset{guess[i]}
  {
    if n - 1 == i {
      MarkLastPosition(guess, result, n);
    } else {
      MarkedAfterMark(guess, result, n - 1, i);
      MarkEarlierPosition(guess, result, n, i);
    }
  }

  /** The letters of a prefix one longer. */
  lemma PrefixSnoc(s: string, n: nat)
    requires 0 < n <= |s|
    ensures multiset(s[..n]) == multiset(s[..n - 1]) + multiset{s[n - 1]}
  {
    assert s[..n] == s[..n - 1] + [s[n - 1]];
  }

  /** Consumed letters depend only on which of the first n indices are
      consumed. */
  lemma {:induction false} ConsumedAgree(solution: string, matched: set<int>, other: set<int>, n: nat)
    requires n <= |solution|
    requires forall k :: 0 <= k < n ==> (k in other <==> k in matched)
    ensures ConsumedLetters(solution, other, n) == ConsumedLetters(solution, matched, n)
  {
    if n > 0 {
      ConsumedAgree(solution, matched, other, n - 1);
      assert (n - 1 in other) == (n - 1 in matched);
    }
  }

  /** Consuming the last of n indices adds its letter to the consumed
      letters. */
  lemma ConsumeLastIndex(solution: string, matched: set<int>, n: nat)
    requires 0 < n <= |solution| && n - 1 !in matched
    ensures ConsumedLetters(solution, matched + {n - 1}, n)
            == ConsumedLetters(solution, matched, n) + multiset{solution[n - 1]}
  {
    ConsumedAgree(solution, matched, matched + {n - 1}, n - 1);
  }

  /** Consuming an earlier index j keeps its effect when index n-1 is
      added. */
  lemma ConsumeEarlierIndex(solution: string, matched: set<int>, n: nat, j: int)
    requires 0 < n <= |solution| && 0 <= j < n - 1
    requires ConsumedLetters(solution, matched + {j}, n - 1)
             == ConsumedLetters(solution, matched, n - 1) + multiset{solution[j]}
    ensures ConsumedLetters(solution, matched + {j}, n)
            == ConsumedLetters(solution, matched, n) + multiset{solution[j]}
  {
    assert (n - 1 in matched + {j}) == (n - 1 in matched);
  }

  /** Consuming an unconsumed index j adds solution[j] to the consumed
      letters. */
  lemma {:induction false} ConsumedAfterAdd(solution: string, matched: set<int>, n: nat, j: int)
    requires n <= |solution| && 0 <= j < n && j !in matched
    ensures ConsumedLetters(solution, matched + {j}, n) == ConsumedLetters(solution, matched, n) + multiset{solution[j]}
  {
    if n - 1 == j {
      ConsumeLastIndex(solution, matched, n);
    } else {
      ConsumedAfterAdd(solution, matched, n - 1, j);
      ConsumeEarlierIndex(solution, matched, n, j);
    }
  }

  /** Consumed letters are drawn from the solution without repetition. */
  lemma {:induction false} ConsumedWithinSolution(solution: string, matched: set<int>, n: nat)
    requires n <= |solution|
    ensures ConsumedLetters(solution, matched, n) <= multiset(solution[..n])
  {
    if n > 0 {
      ConsumedWithinSolution(solution, matched, n - 1);
      PrefixSnoc(solution, n);
    }
  }

  /** When every index holding c is consumed, all of c's occurrences are. */
  lemma {:induction false} ConsumedAllOf(solution: string, matched: set<int>, n: nat, c: char)
    requires n <= |solution|
    requires forall j :: 0 <= j < n && solution[j] == c ==> j in matched
    ensures ConsumedLetters(solution, matched, n)[c] == multiset(solution[..n])[c]
  {
    if n > 0 {
      ConsumedAllOf(solution, matched, n - 1, c);
      PrefixSnoc(solution, n);
    }
  }

  /** After the first pass the marked letters are exactly the consumed ones. */
  lemma {:induction false} FirstPassBalanced(guess: string, solution: string, n: nat)
    requires |guess| == |solution| == WordLength && n <= WordLength
    ensures MarkedLetters(guess, FirstPass(guess, solution).result, n)
            == ConsumedLetters(solution, FirstPass(guess, solution).matched, n)
  {
    if n > 0 {
      FirstPassBalanced(guess, solution, n - 1);
    }
  }

  /** Everything that holds of the evaluation state after k steps of the
      second pass. */
  ghost predicate PassInvariant(guess: string, solution: string, p: Pass, k: nat)
    requires |guess| == |solution| == WordLength && |p.result| == WordLength && k <= WordLength
  {
    && (forall i :: 0 <= i < WordLength ==> (p.result[i] == Correct <==> guess[i] == solution[i]))
    && (forall i :: k <= i < WordLength ==> p.result[i] != Present)
    && (forall j :: j in p.matched ==> 0 <= j < WordLength)
    && (forall j :: 0 <= j < WordLength && guess[j] == solution[j] ==> j in p.matched)
    && MarkedLetters(guess, p.result, WordLength)
       == ConsumedLetters(solution, p.matched, WordLength)
    && (forall i :: 0 <= i < k && p.result[i] == Absent ==>
          forall j :: 0 <= j < WordLength && solution[j] == guess[i] ==> j in p.matched)
    && (forall i :: 0 <= i < WordLength && p.result[i] == Present ==>
          OccursOffTarget(guess, solution, guess[i]))
  }

  lemma {:induction false} SecondPassInvariant(guess: string, solution: string, k: nat)
    requires |guess| == |solution| == WordLength && k <= WordLength
    ensures PassInvariant(guess, solution, SecondPass(guess, solution, k), k)
  {
    if k == 0 {
      FirstPassInvariant(guess, solution);
    } else {
      SecondPassInvariant(guess, solution, k - 1);
      SecondPassStep(guess, solution, k);
    }
  }

  lemma FirstPassInvariant(guess: string, solution: string)
    requires |guess| == |solution| == WordLength
    ensures PassInvariant(guess, solution, FirstPass(guess, solution), 0)
  {
    FirstPassBalanced(guess, solution, WordLength);
  }

  /** One step of the second pass keeps the invariant. */
  lemma SecondPassStep(guess: string, solution: string, k: nat)
    requires |guess| == |solution| == WordLength && 0 < k <= WordLength
    requires PassInvariant(guess, solution, SecondPass(guess, solution, k - 1), k - 1)
    ensures PassInvariant(guess, solution, SecondPass(guess, solution, k), k)
  {
    var p := SecondPass(guess, solution, k - 1);
    if p.result[k - 1] != Correct {
      var j := FindUnmatched(solution, guess[k - 1], p.matched);
      if j != -1 {
        assert SecondPass(guess, solution, k) == Pass(p.result[k - 1 := Present], p.matched + {j});
        PresentStep(guess, solution, p, k, j);
      } else {
        assert SecondPass(guess, solution, k) == p;
        forall jj | 0 <= jj < WordLength && solution[jj] == guess[k - 1]
          ensures jj in p.matched
        {
          assert !Unmatched(solution, guess[k - 1], p.matched, jj);
        }
      }
    }
  }

  /** Marking an unmarked guess position i and consuming an unconsumed
      solution index j holding the same letter keeps the marked and the
      consumed letters equal as multisets. */
  lemma MarkAndConsume(guess: string, solution: string, p: Pass, i: nat, j: int)
    requires |guess| == |solution| == WordLength == |p.result| && i < WordLength
    requires 0 <= j < WordLength && j !in p.matched && solution[j] == guess[i]
    requires !IsMark(p.result[i])
    requires MarkedLetters(guess, p.result, WordLength)
             == ConsumedLetters(solution, p.matched, WordLength)
    ensures MarkedLetters(guess, p.result[i := Present], WordLength)
            == ConsumedLetters(solution, p.matched + {j}, WordLength)
  {
    MarkedAfterMark(guess, p.result, WordLength, i);
    ConsumedAfterAdd(solution, p.matched, WordLength, j);
  }

  /** Marking position k-1 present and consuming index j keeps the invariant. */
  lemma PresentStep(guess: string, solution: string, p: Pass, k: nat, j: int)
    requires |guess| == |solution| == WordLength && 0 < k <= WordLength && |p.result| == WordLength
    requires PassInvariant(guess, solution, p, k - 1)
    requires p.result[k - 1] != Correct
    requires forall i :: 0 <= i < WordLength ==> p.result[i].IsEvaluated()
    requires 0 <= j < WordLength && Unmatched(solution, guess[k - 1], p.matched, j)
    ensures PassInvariant(guess, solution, Pass(p.result[k - 1 := Present], p.matched + {j}), k)
  {
    assert p.result[k - 1] == Absent;
    MarkAndConsume(guess, solution, p, k - 1, j);
    assert guess[j] != solution[j];
    PresentKeepsOffTarget(guess, solution, p.result, k - 1, j);
    PresentKeepsExhausted(guess, solution, p, k, j);
  }

  /** Marking position i0 present on the strength of an unmatched solution
      index j keeps every present letter backed by an off-target occurrence. */
  lemma PresentKeepsOffTarget(guess: string, solution: string, result: seq<LetterStatus>, i0: nat, j: int)
    requires |guess| == |solution| == WordLength == |result| && i0 < WordLength
    requires 0 <= j < WordLength && solution[j] == guess[i0] && guess[j] != solution[j]
    requires forall i :: 0 <= i < WordLength && result[i] == Present ==> OccursOffTarget(guess, solution, guess[i])
    ensures forall i :: 0 <= i < WordLength && result[i0 := Present][i] == Present ==>
              OccursOffTarget(guess, solution, guess[i])
  {
    forall i | 0 <= i < WordLength && result[i0 := Present][i] == Present
      ensures OccursOffTarget(guess, solution, guess[i])
    {
      if i != i0 {
        assert result[i] == Present;
      }
    }
  }

  /** Marking position k-1 present keeps every absent position before it
      exhausted: consuming one more index only grows the matched set. */
  lemma PresentKeepsExhausted(guess: string, solution: string, p: Pass, k: nat, j: int)
    requires |guess| == |solution| == WordLength == |p.result| && 0 < k <= WordLength
    requires forall i :: 0 <= i < k - 1 && p.result[i] == Absent ==>
               forall jj :: 0 <= jj < WordLength && solution[jj] == guess[i] ==> jj in p.matched
    ensures forall i :: 0 <= i < k && p.result[k - 1 := Present][i] == Absent ==>
              forall jj :: 0 <= jj < WordLength && solution[jj] == guess[i] ==> jj in p.matched + {j}
  {
    forall i | 0 <= i < k && p.result[k - 1 := Present][i] == Absent
      ensures forall jj :: 0 <= jj < WordLength && solution[jj] == guess[i] ==> jj in p.matched + {j}
    {
      assert i < k - 1 && p.result[i] == Absent;
    }
  }

  // ---------------------------------------------------------------------
  // Properties of the evaluation
  // ---------------------------------------------------------------------

  /** A position is correct exactly when guess and solution agree there. */
  lemma CorrectIffSameLetter(guess: string, solution: string)
    requires |guess| == |solution| == WordLength
    ensures forall i :: 0 <= i < WordLength ==>
              (Evaluate(guess, solution)[i] == Correct <==> guess[i] == solution[i])
  {
    SecondPassInvariant(guess, solution, WordLength);
  }

  /** No letter is marked (correct or present) more often than it occurs
      in the solution. */
  lemma MarksWithinOccurrences(guess: string, solution: string)
    requires |guess| == |solution| == WordLength
    ensures forall c :: MarkCount(guess, Evaluate(guess, solution), c) <= multiset(solution)[c]
  {
    var p := SecondPass(guess, solution, WordLength);
    SecondPassInvariant(guess, solution, WordLength);
    ConsumedWithinSolution(solution, p.matched, WordLength);
    assert solution[..WordLength] == solution;
  }

  /** A present mark points at an occurrence of the letter elsewhere in the
      solution, at a position that is not an exact match. */
  lemma PresentHasOffTargetOccurrence(guess: string, solution: string)
    requires |guess| == |solution| == WordLength
    ensures forall i :: 0 <= i < WordLength && Evaluate(guess, solution)[i] == Present ==>
              guess[i] != solution[i] && OccursOffTarget(guess, solution, guess[i])
  {
    SecondPassInvariant(guess, solution, WordLength);
  }

  /** An absent letter had every solution index holding it consumed, so its
      marks use up all its occurrences in the solution. */
  lemma AbsentMeansExhausted(guess: string, solution: string)
    requires |guess| == |solution| == WordLength
    ensures var p := SecondPass(guess, solution, WordLength);
            forall i :: 0 <= i < WordLength && p.result[i] == Absent ==>
              forall j :: 0 <= j < WordLength && solution[j] == guess[i] ==> j in p.matched
    ensures forall i :: 0 <= i < WordLength && Evaluate(guess, solution)[i] == Absent ==>
              MarkCount(guess, Evaluate(guess, solution), guess[i]) == multiset(solution)[guess[i]]
  {
    var p := SecondPass(guess, solution, WordLength);
    SecondPassInvariant(guess, solution, WordLength);
    assert solution[..WordLength] == solution;
    forall i | 0 <= i < WordLength && p.result[i] == Absent
      ensures MarkCount(guess, p.result, guess[i]) == multiset(solution)[guess[i]]
    {
      ConsumedAllOf(solution, p.matched, WordLength, guess[i]);
    }
  }

  /** Guessing the solution itself marks every position correct. */
  lemma SolutionIsAllCorrect(solution: string)
    requires |solution| == WordLength
    ensures forall i :: 0 <= i < WordLength ==> Evaluate(solution, solution)[i] == Correct
  {
    CorrectIffSameLetter(solution, solution);
  }

  /** A guess sharing no letter with the solution is absent everywhere. */
  lemma DisjointIsAllAbsent(guess: string, solution: string)
    requires |guess| == |solution| == WordLength
    requires forall i, j :: 0 <= i < WordLength && 0 <= j < WordLength ==> guess[i] != solution[j]
    ensures forall i :: 0 <= i < WordLength ==> Evaluate(guess, solution)[i] == Absent
  {
    CorrectIffSameLetter(guess, solution);
    PresentHasOffTargetOccurrence(guess, solution);
  }

  // ---------------------------------------------------------------------
  // Tiles
  // ---------------------------------------------------------------------

  /** createTilesFromGuess: one tile per letter of the guess. */
  function TilesFromGuess(guess: string, statuses: seq<LetterStatus>): (row: seq<Tile>)
    requires |guess| <= |statuses|
    ensures |row| == |guess|
  {
    seq(|guess|, i requires 0 <= i < |guess| => Tile([guess[i]], statuses[i]))
  }

  /** createEmptyTiles: n blank tiles. */
  function EmptyTiles(n: nat): (row: seq<Tile>)
    ensures |row| == n
  {
    seq(n, _ => Tile("", Empty))
  }

  /** The word a row spells: its tile letters joined. */
  function RowWord(row: seq<Tile>): (w: string)
    ensures (forall i :: 0 <= i < |row| ==> |row[i].letter| == 1) ==> |w| == |row|
  {
    if row == [] then "" else RowWord(row[..|row| - 1]) + row[|row| - 1].letter
  }

  /** Joining the letters of the tiles built from a guess gives the guess
      back, and each tile carries the status of its position. */
  lemma {:induction false} TilesRoundTrip(guess: string, statuses: seq<LetterStatus>)
    requires |guess| <= |statuses|
    ensures RowWord(TilesFromGuess(guess, statuses)) == guess
    ensures forall i :: 0 <= i < |guess| ==> TilesFromGuess(guess, statuses)[i].status == statuses[i]
    decreases |guess|
  {
    if guess != [] {
      var n := |guess|;
      assert TilesFromGuess(guess, statuses)[..n - 1] == TilesFromGuess(guess[..n - 1], statuses);
      TilesRoundTrip(guess[..n - 1], statuses);
      assert guess == guess[..n - 1] + [guess[n - 1]];
    }
  }

  /** Blank tiles spell the empty word and are all `Empty`. */
  lemma {:induction false} EmptyTilesBlank(n: nat)
    ensures RowWord(EmptyTiles(n)) == ""
    ensures forall i :: 0 <= i < n ==> EmptyTiles(n)[i].status == Empty
  {
    if n > 0 {
      assert EmptyTiles(n)[..n - 1] == EmptyTiles(n - 1);
      EmptyTilesBlank(n - 1);
    }
  }

  // ---------------------------------------------------------------------
  // Two worked evaluations
  // ---------------------------------------------------------------------

  /** Solution SPEED, guess ERASE: both E's of the guess find an unconsumed
      E of the solution, so the last E is present too. */
  lemma SpeedErase()
    ensures Evaluate("ERASE", "SPEED") == [Present, Absent, Absent, Present, Present]
  {
    var g, s := "ERASE", "SPEED";
    assert FirstPass(g, s).matched == {};
    assert SecondPass(g, s, 1) == Pass([Present, Absent, Absent, Absent, Absent], {2});
    assert SecondPass(g, s, 2) == SecondPass(g, s, 1);
    assert SecondPass(g, s, 3) == SecondPass(g, s, 1);
    assert SecondPass(g, s, 4) == Pass([Present, Absent, Absent, Present, Absent], {0, 2});
    assert FindUnmatched(s, 'E', {0, 2}) == 3;
    assert SecondPass(g, s, 5) == Pass([Present, Absent, Absent, Present, Present], {0, 2, 3});
  }

  /** Solution SPEED, guess EEEEE: the two exact matches use up both E's, so
      the other three E's are absent. */
  lemma SpeedFiveEs()
    ensures Evaluate("EEEEE", "SPEED") == [Absent, Absent, Correct, Correct, Absent]
  {
    var g, s := "EEEEE", "SPEED";
    assert FirstPass(g, s).matched == {2, 3};
    assert FirstPass(g, s).result == [Absent, Absent, Correct, Correct, Absent];
    assert SecondPass(g, s, 1) == FirstPass(g, s);
    assert SecondPass(g, s, 2) == FirstPass(g, s);
    assert SecondPass(g, s, 5) == FirstPass(g, s);
  }

  // ---------------------------------------------------------------------
  // Keyboard status
  // ---------------------------------------------------------------------

  /** Priority of a status on the keyboard: correct > present > absent; a
      missing key ranks 0 like `Empty` and `Tbd`. */
  function Rank(st: LetterStatus): nat {
    match st
    case Correct => 3
    case Present => 2
    case Absent => 1
    case _ => 0
  }

  function KeyRank(keyboard: KeyboardStatus, key: char): nat {
    if key in keyboard then Rank(keyboard[key]) else 0
  }

  /** One letter of updateKeyboardStatus: correct always wins, present
      replaces anything but correct, and any other status only fills a
      missing key. */
  function KeyboardStep(keyboard: KeyboardStatus, letter: char, status: LetterStatus): (r: KeyboardStatus)
    ensures ToLower(letter) in r
    ensures status.IsEvaluated() && (ToLower(letter) in keyboard ==> keyboard[ToLower(letter)].IsEvaluated()) ==>
              KeyRank(r, ToLower(letter)) == Max(KeyRank(keyboard, ToLower(letter)), Rank(status))
  {
    var key := ToLower(letter);
    if status == Correct then keyboard[key := Correct]
    else if status == Present && !(key in keyboard && keyboard[key] == Correct) then keyboard[key := Present]
    else if key !in keyboard then keyboard[key := status]
    else keyboard
  }

  /** The keyboard after the letters 0..n-1 of the guess. */
  function FoldPrefix(keyboard: KeyboardStatus, guess: string, evaluation: seq<LetterStatus>, n: nat): KeyboardStatus
    requires n <= |guess| <= |evaluation|
  {
    if n == 0 then keyboard
    else KeyboardStep(FoldPrefix(keyboard, guess, evaluation, n - 1), guess[n - 1], evaluation[n - 1])
  }

  /** The keyboard after the whole guess. */
  function KeyboardFold(keyboard: KeyboardStatus, guess: string, evaluation: seq<LetterStatus>): (r: KeyboardStatus)
    requires |guess| <= |evaluation|
    ensures r.Keys == keyboard.Keys + GuessKeys(guess, |guess|)
    ensures forall key :: key !in GuessKeys(guess, |guess|) && key in keyboard ==> r[key] == keyboard[key]
    ensures forall key :: KeyRank(keyboard, key) <= KeyRank(r, key)
  {
    FoldFrame(keyboard, guess, evaluation, |guess|);
    FoldPrefix(keyboard, guess, evaluation, |guess|)
  }

  /** updateKeyboardStatus: copy the map, then merge each letter's status. */
  method UpdateKeyboardStatus(currentStatus: KeyboardStatus, guess: string, evaluation: seq<LetterStatus>)
    returns (newStatus: KeyboardStatus)
    requires |guess| <= |evaluation|
    ensures newStatus == KeyboardFold(currentStatus, guess, evaluation)
  {
    newStatus := currentStatus;
    var index := 0;
    while index < |guess|
      invariant index <= |guess|
      invariant newStatus == FoldPrefix(currentStatus, guess, evaluation, index)
    {
      var lowerLetter := ToLower(guess[index]);
      var newLetterStatus := evaluation[index];
      if newLetterStatus == Correct {
        newStatus := newStatus[lowerLetter := Correct];
      } else if newLetterStatus == Present && !(lowerLetter in newStatus && newStatus[lowerLetter] == Correct) {
        newStatus := newStatus[lowerLetter := Present];
      } else if lowerLetter !in newStatus {
        newStatus := newStatus[lowerLetter := newLetterStatus];
      }
      index := index + 1;
    }
  }

  /** The lower-case keys of the first n letters of a guess. */
  function GuessKeys(guess: string, n: nat): set<char>
    requires n <= |guess|
  {
    set i | 0 <= i < n :: ToLower(guess[i])
  }

  /** One letter adds its lower-case key, leaves every other key as it was,
      and never lowers the rank of any key. */
  lemma StepFrame(keyboard: KeyboardStatus, letter: char, status: LetterStatus)
    ensures KeyboardStep(keyboard, letter, status).Keys == keyboard.Keys + {ToLower(letter)}
    ensures forall key :: key != ToLower(letter) && key in keyboard ==>
              KeyboardStep(keyboard, letter, status)[key] == keyboard[key]
    ensures forall key :: KeyRank(keyboard, key) <= KeyRank(KeyboardStep(keyboard, letter, status), key)
  {
    var after := KeyboardStep(keyboard, letter, status);
    forall key
      ensures KeyRank(keyboard, key) <= KeyRank(after, key)
    {
      if key == ToLower(letter) && key in keyboard {
        assert KeyRank(keyboard, key) == Rank(keyboard[key]);
      }
    }
  }

  /** The fold adds exactly the guess's keys, leaves every other key as it
      was, and never lowers the rank of any key. */
  lemma {:induction false} FoldFrame(keyboard: KeyboardStatus, guess: string, evaluation: seq<LetterStatus>, n: nat)
    requires n <= |guess| <= |evaluation|
    ensures FoldPrefix(keyboard, guess, evaluation, n).Keys == keyboard.Keys + GuessKeys(guess, n)
    ensures forall key :: key !in GuessKeys(guess, n) && key in keyboard ==>
              FoldPrefix(keyboard, guess, evaluation, n)[key] == keyboard[key]
    ensures forall key :: KeyRank(keyboard, key) <= KeyRank(FoldPrefix(keyboard, guess, evaluation, n), key)
  {
    if n > 0 {
      FoldFrame(keyboard, guess, evaluation, n - 1);
      assert GuessKeys(guess, n) == GuessKeys(guess, n - 1) + {ToLower(guess[n - 1])};
      var before := FoldPrefix(keyboard, guess, evaluation, n - 1);
      StepFrame(before, guess[n - 1], evaluation[n - 1]);
    }
  }

  /** Every value on the keyboard is one of the three evaluation outcomes. */
  ghost predicate WellRanked(keyboard: KeyboardStatus) {
    forall key :: key in keyboard ==> keyboard[key].IsEvaluated()
  }

  /** Highest rank among the statuses of the first n guess letters whose
      key is `key` (0 if none). */
  function BestRank(guess: string, evaluation: seq<LetterStatus>, key: char, n: nat): nat
    requires n <= |guess| <= |evaluation|
  {
    if n == 0 then 0
    else Max(BestRank(guess, evaluation, key, n - 1),
             if ToLower(guess[n - 1]) == key then Rank(evaluation[n - 1]) else 0)
  }

  /** With evaluation outcomes only, the fold keeps for every key the
      highest status seen: the old one or any of the guess's. */
  lemma {:induction false} FoldKeepsBest(keyboard: KeyboardStatus, guess: string, evaluation: seq<LetterStatus>, n: nat)
    requires n <= |guess| <= |evaluation|
    requires WellRanked(keyboard)
    requires forall i :: 0 <= i < |guess| ==> evaluation[i].IsEvaluated()
    ensures WellRanked(FoldPrefix(keyboard, guess, evaluation, n))
    ensures forall key :: KeyRank(FoldPrefix(keyboard, guess, evaluation, n), key)
                          == Max(KeyRank(keyboard, key), BestRank(guess, evaluation, key, n))
  {
    if n > 0 {
      FoldKeepsBest(keyboard, guess, evaluation, n - 1);
      var before := FoldPrefix(keyboard, guess, evaluation, n - 1);
      var after := FoldPrefix(keyboard, guess, evaluation, n);
      assert evaluation[n - 1].IsEvaluated();
      forall key
        ensures KeyRank(after, key) == Max(KeyRank(keyboard, key), BestRank(guess, evaluation, key, n))
      {
        if key == ToLower(guess[n - 1]) {
          assert KeyRank(after, key) == Max(KeyRank(before, key), Rank(evaluation[n - 1]));
        }
      }
    }
  }

  /** Two well-ranked keyboards with the same rank on every key are equal. */
  lemma SameRanksSameKeyboard(a: KeyboardStatus, b: KeyboardStatus)
    requires WellRanked(a) && WellRanked(b)
    requires forall key :: KeyRank(a, key) == KeyRank(b, key)
    ensures a == b
  {
    forall key | key in a
      ensures key in b && a[key] == b[key]
    {
      assert KeyRank(a, key) == KeyRank(b, key);
    }
    forall key | key in b
      ensures key in a
    {
      assert KeyRank(a, key) == KeyRank(b, key);
    }
  }

  /** Folding the same evaluated guess twice changes nothing the second time. */
  lemma FoldIdempotent(keyboard: KeyboardStatus, guess: string, evaluation: seq<LetterStatus>)
    requires |guess| <= |evaluation|
    requires WellRanked(keyboard)
    requires forall i :: 0 <= i < |guess| ==> evaluation[i].IsEvaluated()
    ensures KeyboardFold(KeyboardFold(keyboard, guess, evaluation), guess, evaluation)
            == KeyboardFold(keyboard, guess, evaluation)
  {
    var once := KeyboardFold(keyboard, guess, evaluation);
    FoldKeepsBest(keyboard, guess, evaluation, |guess|);
    FoldKeepsBest(once, guess, evaluation, |guess|);
    SameRanksSameKeyboard(KeyboardFold(once, guess, evaluation), once);
  }

  /** Folding two evaluated guesses gives the same keyboard in either order. */
  lemma FoldCommutes(keyboard: KeyboardStatus, guess1: string, evaluation1: seq<LetterStatus>,
                     guess2: string, evaluation2: seq<LetterStatus>)
    requires |guess1| <= |evaluation1| && |guess2| <= |evaluation2|
    requires WellRanked(keyboard)
    requires forall i :: 0 <= i < |guess1| ==> evaluation1[i].IsEvaluated()
    requires forall i :: 0 <= i < |guess2| ==> evaluation2[i].IsEvaluated()
    ensures KeyboardFold(KeyboardFold(keyboard, guess1, evaluation1), guess2, evaluation2)
            == KeyboardFold(KeyboardFold(keyboard, guess2, evaluation2), guess1, evaluation1)
  {
    var k1 := KeyboardFold(keyboard, guess1, evaluation1);
    var k2 := KeyboardFold(keyboard, guess2, evaluation2);
    FoldKeepsBest(keyboard, guess1, evaluation1, |guess1|);
    FoldKeepsBest(keyboard, guess2, evaluation2, |guess2|);
    FoldKeepsBest(k1, guess2, evaluation2, |guess2|);
    FoldKeepsBest(k2, guess1, evaluation1, |guess1|);
    SameRanksSameKeyboard(KeyboardFold(k1, guess2, evaluation2), KeyboardFold(k2, guess1, evaluation1));
  }
}
