/** Division facts shared by the index arithmetic and the text encodings. */
module Arith {
  lemma {:induction false} MulAtLeast(a: int, d: int)
    requires a >= 1 && d > 0
    ensures a * d >= d
  {
    if a > 1 {
      MulAtLeast(a - 1, d);
      assert a * d == (a - 1) * d + d;
    }
  }

  /** Euclidean division is determined by its quotient and remainder. */
  lemma DivModUnique(x: int, d: int, q: int, r: int)
    requires d > 0 && 0 <= r < d && x == q * d + r
    ensures x / d == q && x % d == r
  {
    var q', r' := x / d, x % d;
    assert x == q' * d + r' && 0 <= r' < d;
    assert (q - q') * d == q * d - q' * d;
    assert (q' - q) * d == q' * d - q * d;
    if q' > q {
      MulAtLeast(q' - q, d);
    } else if q' < q {
      MulAtLeast(q - q', d);
    }
  }

  lemma MulSucc(x: int, n: int)
    ensures x * (n + 1) == x * n + x
  { }

  lemma DivExact(x: int, d: int)
    requires d > 0 && x % d == 0
    ensures x == (x / d) * d
  { }

  lemma SuccMul(n: int, d: int)
    ensures (n + 1) * d == n * d + d
  { }

  lemma MulMonotone(x: int, y: int, d: int)
    requires x <= y && d > 0
    ensures x * d <= y * d
  {
    if x < y {
      MulAtLeast(y - x, d);
      assert y * d == x * d + (y - x) * d;
    }
  }

  /** Integer division rounding toward zero, as C++ divides ints. */
  function TruncDiv(a: int, d: int): int
    requires d > 0
  {
    if a >= 0 then a / d else -((-a) / d)
  }

  /** The ceiling of a / d (for d > 0). */
  function CeilDiv(a: int, d: int): int
    requires d > 0
  {
    -((-a) / d)
  }

  /** Rounding toward zero matches the C++ operator: |q| * d <= |a| < (|q| + 1) * d, with the sign of a. */
  lemma TruncDivSpec(a: int, d: int)
    requires d > 0
    ensures var q := TruncDiv(a, d);
      (a >= 0 ==> q >= 0 && q * d <= a < q * d + d)
      && (a < 0 ==> q <= 0 && q * d - d < a <= q * d)
  {
    var m := if a >= 0 then a else -a;
    DivModUnique(m, d, m / d, m % d);
  }

  /** The ceiling is the least integer q with a <= q * d. */
  lemma CeilDivSpec(a: int, d: int)
    requires d > 0
    ensures CeilDiv(a, d) * d - d < a <= CeilDiv(a, d) * d
  {
    DivModUnique(-a, d, (-a) / d, (-a) % d);
  }

  /** A mean rounded toward zero stays between the bounds of the values it averages. */
  lemma TruncDivBetween(a: int, d: int, lo: int, hi: int)
    requires d > 0 && lo * d <= a <= hi * d
    ensures lo <= TruncDiv(a, d) <= hi
  {
    TruncDivSpec(a, d);
    var q := TruncDiv(a, d);
    if q < lo {
      MulMonotone(q + 1, lo, d);
    }
    if q > hi {
      MulMonotone(hi + 1, q, d);
    }
  }
}
