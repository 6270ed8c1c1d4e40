/**
  Integer arithmetic shared by the crop mapping and the save resize: Python's floor
  division `//` and Python's `int()` applied to an exact quotient, which truncates
  toward zero.
 */
module Arith {

  function Min(a: int, b: int): int { if a <= b then a else b }

  function Max(a: int, b: int): int { if a <= b then b else a }

  function Abs(a: int): int { if a < 0 then -a else a }

  /** `q` is the exact quotient n / d rounded toward zero (d positive). */
  predicate IsTruncQuotient(q: int, n: int, d: int)
    requires d > 0
  {
    if n >= 0 then q * d <= n < q * d + d
    else q * d - d < n <= q * d
  }

  /** `q` is the exact quotient n / d rounded toward minus infinity (d positive). */
  predicate IsFloorQuotient(q: int, n: int, d: int)
    requires d > 0
  {
    q * d <= n < q * d + d
  }

  /** Python's `n // d` for a positive divisor. */
  function FloorDiv(n: int, d: int): (q: int)
    requires d > 0
    ensures IsFloorQuotient(q, n, d)
  {
    n / d
  }

  /** Python's `int(n / d)` with the quotient taken exactly: truncation toward zero.
      Its characterisation is the lemma TruncDivIsTruncation, kept out of the function's
      contract so that the nonlinear facts only enter proofs that ask for them. */
  function TruncDiv(n: int, d: int): int
    requires d > 0
  {
    if n >= 0 then n / d else -((-n) / d)
  }

  /** TruncDiv rounds the exact quotient toward zero, so its sign follows the numerator. */
  lemma TruncDivIsTruncation(n: int, d: int)
    requires d > 0
    ensures IsTruncQuotient(TruncDiv(n, d), n, d)
    ensures n >= 0 ==> TruncDiv(n, d) >= 0
    ensures n <= 0 ==> TruncDiv(n, d) <= 0
  {
  }

  /** Truncation and flooring agree on non-negative numerators and differ on every
      negative numerator that is not a multiple of the divisor. */
  lemma TruncVersusFloor(n: int, d: int)
    requires d > 0
    ensures n >= 0 ==> TruncDiv(n, d) == FloorDiv(n, d)
    ensures n < 0 && n % d != 0 ==> TruncDiv(n, d) == FloorDiv(n, d) + 1
  {
    if n < 0 && n % d != 0 {
      var q := FloorDiv(n, d);
      var t := TruncDiv(n, d);
      TruncDivIsTruncation(n, d);
      assert q * d == n - n % d;
      assert (t - 1) * d == t * d - d && (q + 1) * d == q * d + d && (t + 1) * d == t * d + d;
      MulCancel(t - 1, q, d);
      MulCancel(q + 1, t, d);
    }
  }

  /** Multiplying by a positive factor preserves order. */
  lemma MulMonotone(a: int, b: int, d: int)
    requires d > 0
    requires a <= b
    ensures a * d <= b * d
  {
    assert b * d - a * d == (b - a) * d;
  }

  /** Dividing out a positive factor: a * d < (b + 1) * d means a <= b. */
  lemma MulCancel(a: int, b: int, d: int)
    requires d > 0
    requires a * d < (b + 1) * d
    ensures a <= b
  {
    if a > b {
      MulMonotone(b + 1, a, d);
    }
  }

  /** The truncated quotient is determined by its characterisation. */
  lemma TruncQuotientUnique(q1: int, q2: int, n: int, d: int)
    requires d > 0
    requires IsTruncQuotient(q1, n, d) && IsTruncQuotient(q2, n, d)
    ensures q1 == q2
  {
    assert (q1 + 1) * d == q1 * d + d && (q2 + 1) * d == q2 * d + d;
    MulCancel(q1, q2, d);
    MulCancel(q2, q1, d);
  }

  /** Truncated division by a positive divisor is monotone in the numerator. */
  lemma TruncDivMonotone(n1: int, n2: int, d: int)
    requires d > 0
    requires n1 <= n2
    ensures TruncDiv(n1, d) <= TruncDiv(n2, d)
  {
    var q1 := TruncDiv(n1, d);
    var q2 := TruncDiv(n2, d);
    TruncDivIsTruncation(n1, d);
    TruncDivIsTruncation(n2, d);
    assert (q2 + 1) * d == q2 * d + d;
    if n1 >= 0 {
      MulCancel(q1, q2, d);
    } else if n2 < 0 {
      MulCancel(q1, q2, d);
    }
  }

  /** For non-negative numerators, truncating two parts separately never gives more
      than truncating their sum. */
  lemma TruncDivSuperadditive(n1: int, n2: int, d: int)
    requires d > 0
    requires n1 >= 0 && n2 >= 0
    ensures TruncDiv(n1, d) + TruncDiv(n2, d) <= TruncDiv(n1 + n2, d)
  {
    var q1 := TruncDiv(n1, d);
    var q2 := TruncDiv(n2, d);
    var q := TruncDiv(n1 + n2, d);
    TruncDivIsTruncation(n1, d);
    TruncDivIsTruncation(n2, d);
    TruncDivIsTruncation(n1 + n2, d);
    assert (q1 + q2) * d == q1 * d + q2 * d;
    assert (q + 1) * d == q * d + d;
    MulCancel(q1 + q2, q, d);
  }

  /** Dividing an exact multiple gives the multiplier back. */
  lemma TruncDivOfMultiple(k: int, d: int)
    requires d > 0
    ensures TruncDiv(k * d, d) == k
  {
    assert (k + 1) * d == k * d + d && (k - 1) * d == k * d - d;
    TruncDivIsTruncation(k * d, d);
    TruncQuotientUnique(TruncDiv(k * d, d), k, k * d, d);
  }

  /** On one axis: an interval from x >= 0 of length w that ends by `bound`, scaled by
      num/d with its start and its length truncated separately. The start stays non-
      negative, the length never exceeds the scaled bound, a non-negative length keeps the
      end within the scaled bound and a negative length never becomes positive. */
  lemma ScaledIntervalInside(x: int, w: int, bound: int, num: nat, d: int)
    requires d > 0
    requires x >= 0 && x + w <= bound
    ensures TruncDiv(x * num, d) >= 0
    ensures TruncDiv(w * num, d) <= TruncDiv(bound * num, d)
    ensures w >= 0 ==> TruncDiv(x * num, d) + TruncDiv(w * num, d) <= TruncDiv(bound * num, d)
    ensures w < 0 ==> TruncDiv(w * num, d) <= 0
  {
    assert x * num >= 0;
    TruncDivIsTruncation(x * num, d);
    TruncDivIsTruncation(w * num, d);
    ScaledBound(w, bound, num, d);
    if w >= 0 {
      assert w * num >= 0;
      TruncDivSuperadditive(x * num, w * num, d);
      assert x * num + w * num == (x + w) * num;
      ScaledBound(x + w, bound, num, d);
    } else {
      assert w * num <= 0;
    }
  }

  /** Scaling by num/den and truncating: the result never exceeds the scaled bound. */
  lemma ScaledBound(v: int, bound: int, num: nat, d: int)
    requires d > 0
    requires v <= bound
    ensures TruncDiv(v * num, d) <= TruncDiv(bound * num, d)
  {
    assert v * num <= bound * num;
    TruncDivMonotone(v * num, bound * num, d);
  }
}
