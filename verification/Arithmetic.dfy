/** Products and quotients of natural numbers. */
module Arithmetic {

  /** Bounds of a quotient, in the form the proofs below use. */
  lemma Quotient(x: nat, d: nat)
    requires d > 0
    ensures x / d * d <= x < x / d * d + d
  {
  }

  lemma MulCancel(a: int, b: int, d: nat)
    requires a * d < b * d
    ensures a < b
  {
    assert (b - a) * d == b * d - a * d;
    if d > 0 && b - a <= 0 {
      MulSign(a - b, d);
    }
  }

  lemma MulSign(a: nat, d: nat)
    ensures a * d >= 0
  {
  }

  lemma QuotientAtMost(x: nat, d: nat, q: nat)
    requires d > 0 && x < (q + 1) * d
    ensures x / d <= q
  {
    Quotient(x, d);
    MulCancel(x / d, q + 1, d);
  }

  lemma QuotientAtLeast(x: nat, d: nat, q: nat)
    requires d > 0 && q * d <= x
    ensures q <= x / d
  {
    Quotient(x, d);
    assert (x / d + 1) * d == x / d * d + d;
    MulCancel(q, x / d + 1, d);
  }

  lemma DivModOf(q: nat, r: nat, d: nat)
    requires r < d
    ensures (q * d + r) / d == q && (q * d + r) % d == r
  {
    var x := q * d + r;
    QuotientAtLeast(x, d, q);
    assert (q + 1) * d == q * d + d;
    QuotientAtMost(x, d, q);
  }

  /** Quotient and remainder rebuild the number. */
  lemma DivMod(x: nat, d: nat)
    requires d > 0
    ensures x / d * d + x % d == x && x % d < d && x % d <= x
  {
  }

  /** Row a ends before row b begins. */
  lemma RowsApart(a: nat, b: nat, d: nat)
    requires a < b
    ensures a * d + d <= b * d
  {
    assert b * d == a * d + d + (b - a - 1) * d;
    MulSign(b - a - 1, d);
  }

  lemma QuotientOfRows(a: nat, r: nat, b: nat, t: nat, d: nat)
    requires r < d && t < d
    ensures a + b <= (a * d + r + (b * d + t)) / d <= a + b + 1
  {
    assert a * d + b * d == (a + b) * d;
    if r + t < d {
      DivModOf(a + b, r + t, d);
    } else {
      assert (a + b + 1) * d == (a + b) * d + d;
      DivModOf(a + b + 1, r + t - d, d);
    }
  }

  /** Adding y to the dividend adds its quotient, or one more. */
  lemma QuotientOfSum(x: nat, y: nat, d: nat)
    requires d > 0
    ensures x / d + y / d <= (x + y) / d <= x / d + y / d + 1
  {
    DivMod(x, d);
    DivMod(y, d);
    QuotientOfRows(x / d, x % d, y / d, y % d, d);
  }
}
