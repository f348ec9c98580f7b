/**
 * The exact, integer tail of MissMatchByCross: the signed angle between two
 * face fields, already divided by a quarter turn, is rounded to the nearest
 * whole number of quarter turns and folded into {0, 1, 2, 3}.
 */
module Quantization {

  /** The C++ expression `a % 4` on `int`: division truncates toward zero, so
      the remainder carries the sign of the dividend (Dafny's own `%` is
      Euclidean). Every `%` in the mismatch code divides by 4. */
  function CppRem4(a: int): (r: int)
    ensures (a - r) % 4 == 0
    ensures a >= 0 ==> 0 <= r < 4
    ensures a < 0 ==> -4 < r <= 0
  {
    if a >= 0 then a % 4 else -((-a) % 4)
  }

  /** On a non-negative dividend the C++ remainder and Dafny's coincide. */
  lemma CppRem4OfNonNegative(a: int)
    requires a >= 0
    ensures CppRem4(a) == a % 4
  {
  }

  /** `(int)floor(x + 0.5)`: the number of quarter turns nearest to `x`. */
  function RoundHalfUp(x: real): (i: int)
    ensures i as real - 0.5 <= x < i as real + 0.5
  {
    (x + 0.5).Floor
  }

  /** The half-open window `[i - 1/2, i + 1/2)` determines `i`: ties go up. */
  lemma RoundHalfUpUnique(x: real, m: int)
    requires m as real - 0.5 <= x < m as real + 0.5
    ensures RoundHalfUp(x) == m
  {
  }

  /** No integer is strictly closer to `x` than the rounded count; an integer
      exactly as close lies below it (ties round up). */
  lemma RoundHalfUpIsNearest(x: real, m: int)
    ensures Dist(x, RoundHalfUp(x) as real) <= Dist(x, m as real)
    ensures Dist(x, RoundHalfUp(x) as real) == Dist(x, m as real) ==> m <= RoundHalfUp(x)
  {
  }

  function Dist(x: real, y: real): (d: real)
    ensures d >= 0.0 && (d == 0.0 <==> x == y)
  {
    if x >= y then x - y else y - x
  }

  /** For every integer, `-3i` and `i` leave the same Euclidean remainder by 4,
      because they differ by the multiple `4i`. */
  lemma NegThreeTimesCongruent(i: int)
    ensures (-(3 * i)) % 4 == i % 4
  {
    assert -(3 * i) == i + 4 * (-i);
  }

  /** The two-branch fold of a quarter-turn count into {0..3}: the remainder
      of `i` when `i >= 0`, of `-3i` otherwise, both with C++ `%` (which only
      ever sees non-negative operands here). It is the Euclidean `i mod 4`. */
  function QuarterTurnIndex(i: int): (k: int)
    ensures 0 <= k <= 3
    ensures k == i % 4
  {
    if i >= 0 then
      CppRem4(i)
    else
      NegThreeTimesCongruent(i);
      CppRem4(-(3 * i))
  }

  /** The negative branch of QuarterTurnIndex is the Euclidean remainder of `i`. */
  lemma NegativeBranchIsEuclidean(i: int)
    requires i < 0
    ensures CppRem4(-(3 * i)) == i % 4
    ensures CppRem4(-(3 * i)) == (i % 4 + 4) % 4
  {
    NegThreeTimesCongruent(i);
  }

  /** The pairwise mismatch of a quarter-turn ratio `angle_diff / step`. */
  function PairMismatch(ratio: real): (k: int)
    ensures 0 <= k <= 3
    ensures k == RoundHalfUp(ratio) % 4
  {
    QuarterTurnIndex(RoundHalfUp(ratio))
  }

  /** An offset of less than half a quarter turn either way gives mismatch 0. */
  lemma AlignedFieldsHaveZeroMismatch(ratio: real)
    requires -0.5 <= ratio < 0.5
    ensures PairMismatch(ratio) == 0
  {
    RoundHalfUpUnique(ratio, 0);
  }

  /** Turning the transported field by one more quarter turn shifts the
      mismatch by exactly one, modulo 4. */
  lemma QuarterTurnShift(ratio: real)
    ensures PairMismatch(ratio + 1.0) == (PairMismatch(ratio) + 1) % 4
  {
    var i := RoundHalfUp(ratio);
    RoundHalfUpUnique(ratio + 1.0, i + 1);
    QuarterTurnIndexShift(i);
  }

  /** One more quarter turn raises the folded index by one, modulo 4. */
  lemma QuarterTurnIndexShift(i: int)
    ensures QuarterTurnIndex(i + 1) == (QuarterTurnIndex(i) + 1) % 4
  {
    var q, r := i / 4, i % 4;
    assert i == 4 * q + r;
    if r == 3 {
      assert i + 1 == 4 * (q + 1);
    } else {
      assert i + 1 == 4 * q + (r + 1);
    }
  }
}
