/**
 * The score arithmetic of ring_leader.py: the combo bonus clamped to the
 * next level threshold, the lost-bullet penalty clamped at zero, and the
 * level thresholds.
 */
module Scoring {
  import opened Settings

  function Min(a: int, b: int): int {
    if a <= b then a else b
  }

  function Max(a: int, b: int): int {
    if a >= b then a else b
  }

  /** 2**n. */
  function Pow2(n: nat): (r: nat)
    ensures r >= 1
    ensures n > 0 ==> r >= 2
  {
    if n == 0 then 1 else 2 * Pow2(n - 1)
  }

  /**
   * The score after one rec_erase that cleared `bullets` bullet-made and
   * `bubbles` grid-made cells: a bonus of 2**bubbles is paid only when both
   * are non-zero, cut down to what is left to reach `next`.
   */
  function ComboScore(score: int, next: int, bullets: nat, bubbles: nat): (r: int)
    ensures bullets == 0 || bubbles == 0 ==> r == score
    ensures bullets > 0 && bubbles > 0 ==> r == Min(score + Pow2(bubbles), next)
    ensures score <= next ==> score <= r <= next
    ensures Min(score, next) <= r <= Max(score, next)
  {
    if bullets > 0 && bubbles > 0 then
      var bonus := Pow2(bubbles);
      var scoreDiff := next - score;
      score + (if bonus > scoreDiff then scoreDiff else bonus)
    else
      score
  }

  /** One lost bullet: add the (negative) penalty, never dropping below zero. */
  function Penalize(score: int, penalty: int): (r: int)
    ensures r >= 0 && r >= score + penalty
    ensures score + penalty >= 0 ==> r == score + penalty
    ensures score + penalty < 0 ==> r == 0
  {
    var s := score + penalty;
    if s < 0 then 0 else s
  }

  /** The score after n lost bullets, one penalty at a time. */
  function Penalized(score: int, penalty: int, n: nat): (r: int)
    ensures n > 0 ==> r >= 0
  {
    if n == 0 then score else Penalize(Penalized(score, penalty, n - 1), penalty)
  }

  /**
   * Clamping after every penalty is the same as clamping once at the end,
   * when penalties do not raise the score.
   */
  lemma {:induction false} PenaltiesClosedForm(score: int, penalty: int, n: nat)
    requires score >= 0 && penalty <= 0
    ensures Penalized(score, penalty, n) == Max(0, score + n * penalty)
  {
    if n > 0 {
      PenaltiesClosedForm(score, penalty, n - 1);
      assert n * penalty == (n - 1) * penalty + penalty;
    }
  }

  /** next_level_points while at `level`: 500 for level 1, then += 250 * level at each new level. */
  function Threshold(level: int): (r: int)
    requires level >= 1
    ensures r >= FIRST_LEVEL_POINTS
    decreases level
  {
    if level == 1 then FIRST_LEVEL_POINTS else Threshold(level - 1) + LEVEL_STEP * level
  }

  /** The thresholds in closed form: 250 + 125 * level * (level + 1). */
  lemma {:induction false} ThresholdClosedForm(level: int)
    requires level >= 1
    ensures Threshold(level) == 250 + 125 * level * (level + 1)
    decreases level
  {
    if level > 1 {
      ThresholdClosedForm(level - 1);
      assert 125 * level * (level + 1) == 125 * (level - 1) * level + 250 * level;
    }
  }

  /** Every level asks for more points than the one before. */
  lemma {:induction false} ThresholdIncreasing(a: int, b: int)
    requires 1 <= a < b
    ensures Threshold(a) < Threshold(b)
    decreases b
  {
    if a < b - 1 {
      ThresholdIncreasing(a, b - 1);
    }
  }
}
