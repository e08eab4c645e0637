/** Extrapolation of a vote count to the full count from the share of tally
    sheets ("actas") already counted. */
module Projection {

  /** `calculate_projection`: the count scaled up by the reporting share; a
      department with no sheets counted keeps its current count. */
  function CalculateProjection(current: real, actas: real): (r: real)
    ensures actas <= 0.0 ==> r == current
    ensures actas > 0.0 ==> r * actas == current * 100.0
    ensures actas == 100.0 ==> r == current
    ensures 0.0 < actas <= 100.0 && current >= 0.0 ==> r >= current
  {
    if actas <= 0.0 then current else (current * 100.0) / actas
  }

  /** The projected value of one table cell:
      `int(calculate_projection(votes, actas)) if actas > 0 else votes`.
      Python's `int()` truncates toward zero, which on the non-negative
      projection is the floor. */
  function RowProjection(votes: nat, actas: real): (p: nat)
    ensures actas <= 0.0 ==> p == votes
    ensures actas > 0.0 ==> p as real <= CalculateProjection(votes as real, actas) < p as real + 1.0
    ensures 0.0 < actas <= 100.0 ==> p >= votes
    ensures actas == 100.0 ==> p == votes
  {
    if actas > 0.0 then
      var x := CalculateProjection(votes as real, actas);
      assert x >= 0.0;
      x.Floor
    else
      votes
  }

  /** Truncating each department's projection before summing loses up to one
      vote per department: two departments with one vote each at 30% give a
      summed projection of 6 while the exact projections add up to more
      than 6.5, whose rounding is 7. */
  lemma TruncatedSumBelowRoundedSum()
    ensures RowProjection(1, 30.0) + RowProjection(1, 30.0) == 6
    ensures CalculateProjection(1.0, 30.0) + CalculateProjection(1.0, 30.0) > 6.5
  {
    assert CalculateProjection(1.0, 30.0) == 100.0 / 30.0;
    assert 3.0 <= 100.0 / 30.0 < 4.0;
  }
}
