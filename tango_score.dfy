/**
 * Score of a finished Tango game, out of 10: four banded sub-scores
 * (errors, hints, completion time, pause time) and their weighted mean.
 * The final rounding to one decimal is not modelled.
 */
module TangoScore {

  import opened TangoTypes

  /** Reference completion time per difficulty, in milliseconds. */
  function ReferenceTime(d: Difficulty): (ms: real)
    ensures ms > 0.0
    ensures ms == (match d case Easy => 3.0 case Medium => 6.0 case Hard => 10.0) * 60000.0
  {
    match d
    case Easy => 180000.0
    case Medium => 360000.0
    case Hard => 600000.0
  }

  const ErrorWeight: int := 40
  const HintWeight: int := 30
  const TimeWeight: int := 20
  const PauseWeight: int := 10

  function ErrorScore(errors: int): (s: int)
    ensures 0 <= s <= 10
    ensures errors == 0 ==> s == 10
    ensures 0 <= errors <= 3 ==> s == 10 - errors
    ensures errors > 30 ==> s == 0
  {
    if errors == 0 then 10
    else if errors == 1 then 9
    else if errors == 2 then 8
    else if errors == 3 then 7
    else if errors <= 5 then 6
    else if errors <= 7 then 5
    else if errors <= 10 then 4
    else if errors <= 15 then 3
    else if errors <= 20 then 2
    else if errors <= 30 then 1
    else 0
  }

  function HintScore(hints: int): (s: int)
    ensures 0 <= s <= 10
    ensures hints == 0 ==> s == 10
    ensures hints == 1 ==> s == 8
    ensures hints == 2 ==> s == 6
    ensures hints > 15 ==> s == 0
  {
    if hints == 0 then 10
    else if hints == 1 then 8
    else if hints == 2 then 6
    else if hints == 3 then 5
    else if hints <= 5 then 4
    else if hints <= 7 then 3
    else if hints <= 10 then 2
    else if hints <= 15 then 1
    else 0
  }

  /** The completion time is compared with the reference time as a ratio. */
  function TimeScore(completionTime: real, d: Difficulty): (s: int)
    ensures 0 <= s <= 10
    ensures completionTime <= ReferenceTime(d) / 2.0 ==> s == 10
    ensures completionTime == ReferenceTime(d) ==> s == 8
    ensures completionTime > 4.0 * ReferenceTime(d) ==> s == 0
  {
    var ratio := completionTime / ReferenceTime(d);
    if ratio <= 0.5 then 10
    else if ratio <= 0.75 then 9
    else if ratio <= 1.0 then 8
    else if ratio <= 1.25 then 7
    else if ratio <= 1.5 then 6
    else if ratio <= 1.75 then 5
    else if ratio <= 2.0 then 4
    else if ratio <= 2.5 then 3
    else if ratio <= 3.0 then 2
    else if ratio <= 4.0 then 1
    else 0
  }

  /** Pause time in milliseconds, compared in minutes. */
  function PauseScore(pauseTime: real): (s: int)
    ensures 0 <= s <= 10
    ensures pauseTime <= 30000.0 ==> s == 10
    ensures pauseTime > 1800000.0 ==> s == 0
  {
    var minutes := pauseTime / 60000.0;
    if minutes <= 0.5 then 10
    else if minutes <= 1.0 then 9
    else if minutes <= 2.0 then 8
    else if minutes <= 3.0 then 7
    else if minutes <= 5.0 then 6
    else if minutes <= 7.0 then 5
    else if minutes <= 10.0 then 4
    else if minutes <= 15.0 then 3
    else if minutes <= 20.0 then 2
    else if minutes <= 30.0 then 1
    else 0
  }

  lemma ErrorScoreMonotone(a: int, b: int)
    requires 0 <= a <= b
    ensures ErrorScore(b) <= ErrorScore(a)
  {
  }

  lemma HintScoreMonotone(a: int, b: int)
    requires 0 <= a <= b
    ensures HintScore(b) <= HintScore(a)
  {
  }

  lemma TimeScoreMonotone(t1: real, t2: real, d: Difficulty)
    requires t1 <= t2
    ensures TimeScore(t2, d) <= TimeScore(t1, d)
  {
    var r := ReferenceTime(d);
    assert t1 / r <= t2 / r;
  }

  lemma PauseScoreMonotone(p1: real, p2: real)
    requires p1 <= p2
    ensures PauseScore(p2) <= PauseScore(p1)
  {
    assert p1 / 60000.0 <= p2 / 60000.0;
  }

  /** The weighted mean of the four sub-scores, before rounding. */
  function WeightedScore(d: Difficulty, errors: int, hints: int, completionTime: real, pauseTime: real): (w: real)
    ensures 0.0 <= w <= 10.0
    ensures (&& ErrorScore(errors) == 10 && HintScore(hints) == 10
             && TimeScore(completionTime, d) == 10 && PauseScore(pauseTime) == 10) ==> w == 10.0
  {
    (ErrorScore(errors) * ErrorWeight + HintScore(hints) * HintWeight
     + TimeScore(completionTime, d) * TimeWeight + PauseScore(pauseTime) * PauseWeight) as real / 100.0
  }

  /** With everything else fixed, more errors or more hints never raise the score. */
  lemma WeightedScoreMonotone(d: Difficulty, e1: int, e2: int, h1: int, h2: int, t: real, p: real)
    requires 0 <= e1 <= e2 && 0 <= h1 <= h2
    ensures WeightedScore(d, e2, h2, t, p) <= WeightedScore(d, e1, h1, t, p)
  {
    ErrorScoreMonotone(e1, e2);
    HintScoreMonotone(h1, h2);
  }
}
