/** Facts about Euclidean division used by the fee and byte-layout proofs. */
module Arith {

  /** A multiple of a positive `d` strictly between `-d` and `d` is zero. */
  lemma MultipleBelowDivisor(d: int, k: int)
    requires d > 0
    ensures k >= 1 ==> d * k >= d
    ensures k <= -1 ==> d * k <= -d
  {
    assert d * k == d * (k - 1) + d;
    assert d * k == d * (k + 1) - d;
    assert k >= 1 ==> d * (k - 1) >= 0;
    assert k <= -1 ==> d * (k + 1) <= 0;
  }

  /** Euclidean division is determined by the quotient/remainder decomposition. */
  lemma DivModUnique(a: int, d: int, q: int, r: int)
    requires d > 0 && a == d * q + r && 0 <= r < d
    ensures a / d == q && a % d == r
  {
    var q', r' := a / d, a % d;
    assert a == d * q' + r';
    assert d * (q' - q) == r - r';
    MultipleBelowDivisor(d, q' - q);
  }

  lemma NonNegativeProduct(a: int, b: int, c: int)
    requires a >= 0 && b >= 0 && c >= 0
    ensures a * b * c >= 0
  {
    assert a * b >= 0;
  }
}
