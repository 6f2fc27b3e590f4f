/**
 * Score of a won Minesweeper game, out of 10: banded time, pause and flag
 * sub-scores and their weighted mean. The final rounding is not modelled.
 */
module MinesweeperScore {
  import opened MinesweeperTypes

  /** Reference completion time per difficulty, in milliseconds. */
  function ReferenceTime(d: Difficulty): (ms: real)
    ensures ms > 0.0
    ensures ms == (match d case Beginner => 2.0 case Intermediate => 8.0 case Expert => 20.0) * 60000.0
  {
    match d
    case Beginner => 120000.0
    case Intermediate => 480000.0
    case Expert => 1200000.0
  }

  const TimeWeight: int := 60
  const PauseWeight: int := 20
  const FlagWeight: int := 20

  function TimeScore(completionTime: real, d: Difficulty): (s: int)
    ensures 0 <= s <= 10
    ensures completionTime <= 0.3 * ReferenceTime(d) ==> s == 10
    ensures completionTime == ReferenceTime(d) ==> s == 7
    ensures completionTime > 4.0 * ReferenceTime(d) ==> s == 0
  {
    var ratio := completionTime / ReferenceTime(d);
    if ratio <= 0.3 then 10
    else if ratio <= 0.5 then 9
    else if ratio <= 0.75 then 8
    else if ratio <= 1.0 then 7
    else if ratio <= 1.25 then 6
    else if ratio <= 1.5 then 5
    else if ratio <= 2.0 then 4
    else if ratio <= 2.5 then 3
    else if ratio <= 3.0 then 2
    else if ratio <= 4.0 then 1
    else 0
  }

  /** Same bands as the Tango pause score: pause time in milliseconds, compared in minutes. */
  function PauseScore(pauseTime: real): (s: int)
    ensures 0 <= s <= 10
    ensures pauseTime <= 30000.0 ==> s == 10
    ensures pauseTime > 1800000.0 ==> s == 0
  {
    var minutes := pauseTime / 60000.0;
    if minutes <= 0.5 then 10
    else if minutes <= 1.0 then 9
    else if minutes <= 2.0 then 8
    else if minutes <= 3.0 then 7
    else if minutes <= 5.0 then 6
    else if minutes <= 7.0 then 5
    else if minutes <= 10.0 then 4
    else if minutes <= 15.0 then 3
    else if minutes <= 20.0 then 2
    else if minutes <= 30.0 then 1
    else 0
  }

  /**
   * Flags used against the number of mines. With no mines the ratio is a
   * division by zero: NaN or Infinity in the original arithmetic, for which
   * every band comparison is false, so the last band (3) applies.
   */
  function FlagScore(flagsUsed: nat, totalMines: nat): (s: int)
    ensures 3 <= s <= 10
    ensures totalMines > 0 && flagsUsed <= totalMines ==> s == 10
  {
    if totalMines == 0 then 3
    else
      var ratio := flagsUsed as real / totalMines as real;
      if ratio <= 1.0 then 10
      else if ratio <= 1.1 then 9
      else if ratio <= 1.2 then 8
      else if ratio <= 1.3 then 7
      else if ratio <= 1.5 then 6
      else if ratio <= 1.75 then 5
      else if ratio <= 2.0 then 4
      else 3
  }

  lemma TimeScoreMonotone(t1: real, t2: real, d: Difficulty)
    requires t1 <= t2
    ensures TimeScore(t2, d) <= TimeScore(t1, d)
  {
    var r := ReferenceTime(d);
    assert t1 / r <= t2 / r;
  }

  lemma PauseScoreMonotone(p1: real, p2: real)
    requires p1 <= p2
    ensures PauseScore(p2) <= PauseScore(p1)
  {
    assert p1 / 60000.0 <= p2 / 60000.0;
  }

  lemma FlagScoreMonotone(f1: nat, f2: nat, totalMines: nat)
    requires f1 <= f2
    ensures FlagScore(f2, totalMines) <= FlagScore(f1, totalMines)
  {
    if totalMines > 0 {
      assert f1 as real / totalMines as real <= f2 as real / totalMines as real;
    }
  }

  /** The weighted mean before rounding; the flag score's floor of 3 bounds it below by 0.6. */
  function WeightedScore(d: Difficulty, completionTime: real, pauseTime: real, flagsUsed: nat, totalMines: nat): (w: real)
    ensures 0.6 <= w <= 10.0
  {
    (TimeScore(completionTime, d) * TimeWeight + PauseScore(pauseTime) * PauseWeight
     + FlagScore(flagsUsed, totalMines) * FlagWeight) as real / 100.0
  }
}
