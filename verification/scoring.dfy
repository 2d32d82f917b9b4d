/**
 The score awarded on a win: 100 points less 5 per attempt, never below 10
 (`Math.max(100 - attempts * 5, 10)` in the game loop).
 */
module Scoring {

  const MaxPoints := 100
  const PenaltyPerAttempt := 5
  const MinPoints := 10

  /** Attempt count from which the floor applies. */
  const FloorAttempts := (MaxPoints - MinPoints) / PenaltyPerAttempt

  function Score(attempts: nat): (r: int)
    ensures r >= MinPoints
    ensures attempts >= 1 ==> r <= MaxPoints - PenaltyPerAttempt
    ensures attempts <= FloorAttempts ==> r + PenaltyPerAttempt * attempts == MaxPoints
    ensures attempts >= FloorAttempts ==> r == MinPoints
    ensures r % PenaltyPerAttempt == 0
  {
    var raw := MaxPoints - attempts * PenaltyPerAttempt;
    if raw > MinPoints then raw else MinPoints
  }

  /** One more attempt never raises the score, and costs exactly one penalty
      while the score is above the floor. */
  lemma ScoreStep(a: nat)
    ensures Score(a + 1) <= Score(a)
    ensures Score(a) > MinPoints ==> Score(a + 1) == Score(a) - PenaltyPerAttempt
  {}

  /** The score is non-increasing in the number of attempts. */
  lemma {:induction false} ScoreMonotone(a: nat, b: nat)
    requires a <= b
    ensures Score(b) <= Score(a)
    decreases b - a
  {
    if a < b {
      ScoreStep(a);
      ScoreMonotone(a + 1, b);
    }
  }

  /** Below the floor, different attempt counts give different scores, so a
      score above 10 tells how many attempts were made. */
  lemma ScoreDeterminesAttempts(a: nat, b: nat)
    requires Score(a) == Score(b) > MinPoints
    ensures a == b
  {}

  /** The worked values: 1 attempt gives 95, 18 give 10, 50 give 10. */
  lemma ScoreExamples()
    ensures Score(1) == 95 && Score(17) == 15 && Score(18) == 10 && Score(50) == 10
  {}
}
