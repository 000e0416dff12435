/** Facts about multiplication and Euclidean division by a symbolic divisor. */
module Arith {

  lemma {:induction false} MulAtLeast(k: int, d: int)
    requires k >= 1 && d >= 0
    ensures k * d >= d
    decreases k
  {
    if k > 1 {
      MulAtLeast(k - 1, d);
      assert k * d == (k - 1) * d + d;
    }
  }

  lemma MulNonNeg(k: int, d: int)
    requires k >= 0 && d >= 0
    ensures k * d >= 0
  {
    if k >= 1 {
      MulAtLeast(k, d);
    }
  }

  lemma SmallMultipleIsZero(k: int, d: int)
    requires d > 0 && -d < k * d < d
    ensures k == 0
  {
    if k > 0 {
      MulAtLeast(k, d);
      assert false;
    } else if k < 0 {
      MulAtLeast(-k, d);
      assert false;
    }
  }

  /** Euclidean division has a unique quotient and remainder. */
  lemma DivModUnique(x: int, d: int, q: int, r: int)
    requires d > 0 && 0 <= r < d && x == q * d + r
    ensures x / d == q && x % d == r
  {
    var q', r' := x / d, x % d;
    assert (q' - q) * d == r - r';
    SmallMultipleIsZero(q' - q, d);
  }

  lemma MulDivMod(q: int, d: int)
    requires d > 0
    ensures (q * d) / d == q && (q * d) % d == 0
  {
    DivModUnique(q * d, d, q, 0);
  }

  lemma AddMultipleDiv(x: int, q: int, d: int)
    requires d > 0
    ensures (x + q * d) / d == x / d + q && (x + q * d) % d == x % d
  {
    DivModUnique(x + q * d, d, x / d + q, x % d);
  }

  lemma DivMonotone(a: int, b: int, d: int)
    requires d > 0 && a <= b
    ensures a / d <= b / d
  {
    var qa, qb := a / d, b / d;
    if qa > qb {
      assert (qa - qb) * d == (a - a % d) - (b - b % d);
      MulAtLeast(qa - qb, d);
      assert false;
    }
  }

  lemma DivBound(x: int, d: int)
    requires d > 0 && x >= 0
    ensures x / d >= 0 && (x / d) * d <= x < (x / d + 1) * d
  {
  }

  /** A multiple of `d` within `d` of another multiple of `d` equals it. */
  lemma MultiplesApart(a: int, b: int, d: int)
    requires d > 0 && a % d == 0 && b % d == 0 && a <= b < a + d
    ensures a == b
  {
    var qa, qb := a / d, b / d;
    assert (qb - qa) * d == b - a;
    SmallMultipleIsZero(qb - qa, d);
  }

  /** A positive multiple of `d` is at least `d`. */
  lemma PositiveMultiple(x: int, d: int)
    requires d > 0 && x > 0 && x % d == 0
    ensures x >= d
  {
    assert x == (x / d) * d;
    MulAtLeast(x / d, d);
  }

  /** Taking `d` away from a positive multiple of `d` leaves a multiple of `d`. */
  lemma PeelMultiple(x: int, d: int)
    requires d > 0 && x > 0 && x % d == 0
    ensures x >= d && (x - d) % d == 0
  {
    PositiveMultiple(x, d);
    AddMultipleDiv(x - d, 1, d);
  }
}
