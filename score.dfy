/**
 * The session's score and the stored high score. The high score stands for
 * the value the engine keeps under the key "hiscore" in its preference
 * store; writing it is modelled as updating a field.
 */
module Scores {
  datatype Score = Score(score: int, hiscore: int)

  function Max(a: int, b: int): int
  {
    if a < b then b else a
  }

  /** The stored high score is overwritten only by a larger current score. */
  function SaveHiScore(s: Score): (r: Score)
    ensures r.score == s.score
    ensures r.hiscore == Max(s.hiscore, s.score)
  {
    if s.score > s.hiscore then s.(hiscore := s.score) else s
  }

  /** Setting the score writes through to the high score at once. */
  function SetScore(s: Score, score: int): (r: Score)
    ensures r.score == score
    ensures r.hiscore >= s.hiscore && r.hiscore >= score
    ensures r.hiscore == s.hiscore || r.hiscore == score
  {
    SaveHiScore(s.(score := score))
  }

  function IncreaseScore(s: Score, points: int): (r: Score)
    ensures r.score == s.score + points
    ensures r.hiscore >= s.hiscore && r.hiscore >= r.score
    ensures r.hiscore == s.hiscore || r.hiscore == r.score
  {
    SetScore(s, s.score + points)
  }

  /** Resetting the score for a new game never lowers a non-negative high score. */
  lemma NewGameKeepsHiScore(s: Score)
    requires s.hiscore >= 0
    ensures SetScore(s, 0) == Score(0, s.hiscore)
  {
  }
}
