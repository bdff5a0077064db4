/**
  The score both minimax players give a board: `evaluate` of src/ai/minimax_player.rs and of
  src/ai/minmax_player.rs, `cpu_points as i32 - player1_points as i32`. The casts keep the low
  32 bits of the counts and the subtraction is on `i32`; both are written as wrap-around here.
*/
module Scores {
  import opened Game
  import opened GameInvariants
  import opened AI

  const I32Min: int := -0x8000_0000
  const I32Max: int := 0x7fff_ffff

  /** The `i32` with the same low 32 bits as x. */
  function Wrap32(x: int): (r: int)
    ensures I32Min <= r <= I32Max
    ensures (x - r) % 0x1_0000_0000 == 0
    ensures I32Min <= x <= I32Max ==> r == x
  {
    (x - I32Min) % 0x1_0000_0000 + I32Min
  }

  /** `evaluate`. */
  function Evaluate(b: BoardState): (v: int)
    ensures I32Min <= v <= I32Max
    ensures b.statistics.cpuPoints <= I32Max && b.statistics.player1Points <= I32Max ==>
              v == b.statistics.cpuPoints - b.statistics.player1Points
  {
    Wrap32(Wrap32(b.statistics.cpuPoints) - Wrap32(b.statistics.player1Points))
  }

  /** On a board of at most `i32::MAX` cells no cast or subtraction wraps: the score is the
      computer's lead over the first player, and it is above `i32::MIN`. */
  lemma EvaluateIsLead(b: BoardState)
    requires Consistent(b) && b.width * b.height <= I32Max
    ensures Evaluate(b) == b.statistics.cpuPoints - b.statistics.player1Points
    ensures -(b.width * b.height) <= Evaluate(b) <= b.width * b.height
  {
    PointsBounded(b);
  }
}
