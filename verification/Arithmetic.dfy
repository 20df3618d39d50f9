/** Facts about division by a variable divisor, which the prover does not find by itself. */
module Arithmetic {

  const TWO_32: int := 0x1_0000_0000
  const TWO_64: int := 0x1_0000_0000_0000_0000

  /** Quotient and remainder are the only numbers that divide `x` as they do. */
  lemma DivisionUnique(x: int, d: int, q: int, r: int)
    requires 0 < d && 0 <= r < d && x == q * d + r
    ensures q == x / d && r == x % d
  {
    var (q', r') := (x / d, x % d);
    assert x == q' * d + r' && 0 <= r' < d;
    assert (q - q') * d == r' - r;
    SmallMultiple(q - q', d, r' - r);
  }

  lemma SmallMultiple(k: int, d: int, gap: int)
    requires 0 < d && k * d == gap && -d < gap < d
    ensures k == 0
  {
    if k >= 1 { WholeMultiple(k, d); }
    if k <= -1 { WholeMultiple(-k, d); }
  }

  lemma WholeMultiple(k: int, d: int)
    requires 1 <= k && 0 < d
    ensures d <= k * d && (-k) * d == -(k * d)
  {
  }

  /** Whole multiples of the divisor leave the remainder alone. */
  lemma ModShift(q: int, d: int, r: int)
    requires 0 < d
    ensures (q * d + r) % d == r % d
  {
    var k := r / d;
    assert r == k * d + r % d;
    assert q * d + r == (q + k) * d + r % d by {
      assert (q + k) * d == q * d + k * d;
    }
    DivisionUnique(q * d + r, d, q + k, r % d);
  }

  lemma SmallMod(r: int, d: int)
    requires 0 <= r < d
    ensures r % d == r
  {
  }
}
