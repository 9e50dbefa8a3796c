/** Quotients and remainders by a variable divisor. */
module DivMod {

  lemma MulAtLeast(x: int, d: int)
    requires x >= 1 && d > 0
    ensures x * d >= d
  {
    assert x * d == (x - 1) * d + d;
  }

  lemma MulMono(x: int, y: int, d: int)
    requires x <= y && d >= 0
    ensures x * d <= y * d
  {
    assert y * d - x * d == (y - x) * d;
  }

  lemma DivUnique(j: int, d: int, q: int, r: int)
    requires d > 0 && j == q * d + r && 0 <= r < d
    ensures j / d == q && j % d == r
  {
    var q', r' := j / d, j % d;
    assert j == q' * d + r';
    if q > q' {
      assert (q - q') * d == q * d - q' * d;
      MulAtLeast(q - q', d);
    } else if q < q' {
      assert (q' - q) * d == q' * d - q * d;
      MulAtLeast(q' - q, d);
    }
  }

  lemma DivSplit(j: int, d: int)
    requires d > 0
    ensures j == (j / d) * d + j % d && 0 <= j % d < d
  {
  }
}
