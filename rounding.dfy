/** Python's `round(x, 1)` on the exact value of `x`: the nearest multiple of
    0.1, with halves rounded up (see README for what this leaves out). */
module Rounding {

  function Round1(x: real): (r: real)
    ensures x - 0.05 < r <= x + 0.05
    ensures (r * 10.0).Floor as real == r * 10.0
  {
    ((x * 10.0 + 0.5).Floor as real) / 10.0
  }

  /** Rounding never crosses a whole number it starts below. */
  lemma Round1AtMost(x: real, m: int)
    requires x <= m as real
    ensures Round1(x) <= m as real
  {
    var f := (x * 10.0 + 0.5).Floor;
    assert f as real <= x * 10.0 + 0.5;
    assert f <= 10 * m;
  }

  /** A whole number needs no rounding. */
  lemma Round1Whole(m: int)
    ensures Round1(m as real) == m as real
  {
    var f := (m as real * 10.0 + 0.5).Floor;
    assert (10 * m) as real <= m as real * 10.0 + 0.5 < (10 * m + 1) as real;
    assert f == 10 * m;
  }

  /** Rounding never makes a non-negative value negative. */
  lemma Round1NotNegative(x: real)
    requires 0.0 <= x
    ensures 0.0 <= Round1(x)
  {
    var f := (x * 10.0 + 0.5).Floor;
    assert 0.0 <= x * 10.0 + 0.5;
    assert 0 <= f;
  }

  /** Rounding keeps order. */
  lemma Round1Monotone(x: real, y: real)
    requires x <= y
    ensures Round1(x) <= Round1(y)
  {
    var f := (x * 10.0 + 0.5).Floor;
    var g := (y * 10.0 + 0.5).Floor;
    assert f as real <= y * 10.0 + 0.5;
    assert f <= g;
  }
}
