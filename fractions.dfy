/** Counts as real fractions: Python's true division of two counts. */
module Fractions {

  /** A count over a positive total lies in [0, 1] and is 1 only when the count is the total. */
  lemma Fraction(part: nat, total: nat)
    requires 0 < total && part <= total
    ensures 0.0 <= part as real / total as real <= 1.0
    ensures part as real / total as real == 1.0 <==> part == total
  {
    var p, d := part as real, total as real;
    var q := p / d;
    assert q * d == p;
    assert (q - 1.0) * d == p - d;
    if part == total {
      assert q == 1.0 by {
        assert q * d == d;
        assert (q - 1.0) * d == 0.0;
      }
    }
  }
}
