/** Statistics of src/utils/storage.ts: the default record and the update
    after a finished game. The localStorage load/save functions are I/O and
    are not modelled. */
module Storage {
  import opened Types

  /** Sum of the entries of a distribution. */
  function Sum(d: seq<nat>): nat {
    if d == [] then 0 else Sum(d[..|d| - 1]) + d[|d| - 1]
  }

  /** Adding one to an entry adds one to the sum. */
  lemma {:induction false} SumIncrement(d: seq<nat>, i: nat)
    requires i < |d|
    ensures Sum(d[i := d[i] + 1]) == Sum(d) + 1
  {
    var n := |d|;
    var e := d[i := d[i] + 1];
    assert e[..n - 1] == if i < n - 1 then d[..n - 1][i := d[i] + 1] else d[..n - 1];
    if i < n - 1 {
      SumIncrement(d[..n - 1], i);
    }
  }

  /** A distribution of zeros sums to zero. */
  lemma {:induction false} SumOfZeros(d: seq<nat>)
    requires forall i :: 0 <= i < |d| ==> d[i] == 0
    ensures Sum(d) == 0
  {
    if d != [] {
      SumOfZeros(d[..|d| - 1]);
    }
  }

  /** Consistency of a statistics record: no more wins than games, the
      current streak never above the best one, and one distribution entry
      per win. */
  ghost predicate StatsInvariant(s: GameStats)
    reads s.guessDistribution
  {
    s.gamesWon <= s.gamesPlayed
    && s.currentStreak <= s.maxStreak
    && Sum(s.guessDistribution[..]) == s.gamesWon
  }

  /** getDefaultStats: all counters zero and a fresh six-entry distribution
      of zeros. */
  method GetDefaultStats() returns (s: GameStats)
    ensures fresh(s.guessDistribution)
    ensures s.gamesPlayed == 0 && s.gamesWon == 0 && s.currentStreak == 0 && s.maxStreak == 0
    ensures s.guessDistribution[..] == [0, 0, 0, 0, 0, 0]
    ensures s.guessDistribution.Length == MaxGuesses
    ensures StatsInvariant(s)
  {
    var d := new nat[MaxGuesses](_ => 0);
    assert d[..] == [0, 0, 0, 0, 0, 0];
    SumOfZeros(d[..]);
    s := GameStats(0, 0, 0, 0, d);
  }

  /** `after` is what updateStats makes of `before` when the distribution
      array held `distBefore`: the same array object, one more game played,
      and on a win one more win, a longer streak, the best streak raised to
      meet it and entry n-1 of the shared array increased; on a loss the
      streak reset and everything else kept. */
  ghost predicate Recorded(before: GameStats, distBefore: seq<nat>, after: GameStats, won: bool, n: int)
    reads after.guessDistribution
  {
    after.guessDistribution == before.guessDistribution
    && after.gamesPlayed == before.gamesPlayed + 1
    && if won then
         after.gamesWon == before.gamesWon + 1
         && after.currentStreak == before.currentStreak + 1
         && after.maxStreak == Max(before.maxStreak, after.currentStreak)
         && 1 <= n <= |distBefore|
         && after.guessDistribution[..] == distBefore[n - 1 := distBefore[n - 1] + 1]
       else
         after.gamesWon == before.gamesWon
         && after.currentStreak == 0
         && after.maxStreak == before.maxStreak
         && after.guessDistribution[..] == distBefore
  }

  /** updateStats. The record copy is shallow, so the distribution array of
      the result IS the caller's array, incremented in place on a win. */
  method UpdateStats(currentStats: GameStats, won: bool, numberOfGuesses: int) returns (newStats: GameStats)
    requires won ==> 1 <= numberOfGuesses <= currentStats.guessDistribution.Length
    modifies currentStats.guessDistribution
    ensures Recorded(currentStats, old(currentStats.guessDistribution[..]), newStats, won, numberOfGuesses)
    ensures old(StatsInvariant(currentStats)) ==> StatsInvariant(newStats)
  {
    newStats := currentStats;
    newStats := newStats.(gamesPlayed := newStats.gamesPlayed + 1);
    if won {
      newStats := newStats.(gamesWon := newStats.gamesWon + 1);
      newStats := newStats.(currentStreak := newStats.currentStreak + 1);
      newStats := newStats.(maxStreak := Max(newStats.maxStreak, newStats.currentStreak));
      newStats.guessDistribution[numberOfGuesses - 1] := newStats.guessDistribution[numberOfGuesses - 1] + 1;
      SumIncrement(old(currentStats.guessDistribution[..]), numberOfGuesses - 1);
    } else {
      newStats := newStats.(currentStreak := 0);
    }
  }

  /** One win in three guesses from the defaults, then a loss; the
      caller's record sees the win's distribution entry through the shared
      array. */
  method WinThenLoss()
  {
    var s0 := GetDefaultStats();
    var s1 := UpdateStats(s0, true, 3);
    assert s1.gamesPlayed == 1 && s1.gamesWon == 1 && s1.currentStreak == 1 && s1.maxStreak == 1;
    assert s1.guessDistribution[..] == [0, 0, 1, 0, 0, 0];
    assert s0.guessDistribution[2] == 1;
    var s2 := UpdateStats(s1, false, 4);
    assert s2.currentStreak == 0 && s2.maxStreak == 1 && s2.gamesPlayed == 2;
  }
}
