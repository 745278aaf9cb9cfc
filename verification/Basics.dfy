/** Small notions that several modules need. */
module Basics {

  datatype Option<+T> = None | Some(value: T)

  /** Counts a condition. */
  function One(b: bool): nat { if b then 1 else 0 }

  /** Comparing a ratio is comparing with a multiple of the divisor. */
  lemma RatioAtLeast(x: real, d: real, c: real)
    requires d > 0.0
    ensures x / d >= c <==> x >= c * d
  {
    var r := x / d;
    assert r * d == x;
    assert (r - c) * d == x - c * d;
    if r >= c {
      assert (r - c) * d >= 0.0;
    } else {
      assert (c - r) * d > 0.0;
    }
  }
}
