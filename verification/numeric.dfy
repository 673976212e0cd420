/** Integer helpers for the places where the program mixes floats and `int()`. */
module Numeric {

  function Min(a: int, b: int): int { if a <= b then a else b }

  function Max(a: int, b: int): int { if a >= b then a else b }

  /** Python's `int()` on a number: truncation toward zero. */
  function Trunc(x: real): (n: int)
    ensures 0.0 <= x ==> 0 <= n && n as real <= x < n as real + 1.0
    ensures x < 0.0 ==> n <= 0 && n as real - 1.0 < x <= n as real
  {
    if x >= 0.0 then x.Floor else -((-x).Floor)
  }

  /** `int(a / b)` for a positive integer `b`, computed without leaving the integers. */
  function TruncDiv(a: int, b: int): (q: int)
    requires b > 0
    ensures 0 <= a ==> 0 <= q && q * b <= a < q * b + b
    ensures a < 0 ==> q <= 0 && q * b - b < a <= q * b
  {
    if a >= 0 then a / b else -((-a) / b)
  }

  /** The integer quotient agrees with truncating the exact rational quotient. */
  lemma TruncDivExact(a: int, b: int)
    requires b > 0
    ensures TruncDiv(a, b) == Trunc(a as real / b as real)
  {
    if a >= 0 {
      FloorDivExact(a, b);
    } else {
      FloorDivExact(-a, b);
      NegDiv(a as real, b as real);
    }
  }

  /** For a non-negative numerator, integer division is the floor of the exact quotient. */
  lemma FloorDivExact(a: int, b: int)
    requires a >= 0 && b > 0
    ensures (a as real / b as real).Floor == a / b
  {
    var q := a / b;
    QuotientAtLeast(a, b, q);
    QuotientBelow(a, b, q + 1);
  }

  lemma QuotientAtLeast(a: int, b: int, k: int)
    requires b > 0 && k * b <= a
    ensures k as real <= a as real / b as real
  {
    var x := a as real / b as real;
    DivMul(a as real, b as real);
    CastMul(k, b);
    RealCancel(k as real, x, b as real);
  }

  lemma QuotientBelow(a: int, b: int, k: int)
    requires b > 0 && a < k * b
    ensures a as real / b as real < k as real
  {
    var x := a as real / b as real;
    DivMul(a as real, b as real);
    CastMul(k, b);
    RealCancelStrict(x, k as real, b as real);
  }

  lemma NegDiv(a: real, b: real)
    requires b != 0.0
    ensures -(a / b) == (-a) / b
  {
  }

  lemma RealCancel(u: real, v: real, c: real)
    requires c > 0.0 && u * c <= v * c
    ensures u <= v
  {
  }

  lemma RealCancelStrict(u: real, v: real, c: real)
    requires c > 0.0 && u * c < v * c
    ensures u < v
  {
  }

  lemma DivMul(a: real, b: real)
    requires b != 0.0
    ensures (a / b) * b == a
  {
  }

  lemma MulDiv(m: real, i: real, h: real)
    requires h != 0.0
    ensures m * (i / h) == (m * i) / h
  {
  }

  lemma DivDiv(m: real, i: real, h: real)
    requires h != 0.0 && i != 0.0
    ensures m / (i / h) == (m * h) / i
  {
  }

  lemma CastMul(a: int, b: int)
    ensures (a * b) as real == a as real * b as real
  {
  }

  lemma PositiveProduct(a: real, b: real)
    requires a > 0.0 && b > 0.0
    ensures a * b > 0.0
  {
  }

  lemma MulMono(u: real, v: real, c: real)
    requires c > 0.0 && u <= v
    ensures u * c <= v * c
  {
    if u < v {
      PositiveProduct(v - u, c);
    }
  }

  lemma MulMonoStrict(u: real, v: real, c: real)
    requires c > 0.0 && u < v
    ensures u * c < v * c
  {
    PositiveProduct(v - u, c);
  }

  lemma Cancel(a: int, b: int, c: int)
    requires c > 0 && a * c <= b * c
    ensures a <= b
  {
    if a > b {
      PositiveIntProduct(a - b, c);
    }
  }

  lemma CancelStrict(a: int, b: int, c: int)
    requires c > 0 && a * c < b * c
    ensures a < b
  {
    if a >= b {
      NonNegProduct(a - b, c);
    }
  }

  lemma PositiveIntProduct(a: int, b: int)
    requires a > 0 && b > 0
    ensures a * b > 0
  {
  }

  lemma NonNegProduct(a: int, b: int)
    requires a >= 0 && b >= 0
    ensures a * b >= 0
  {
  }

  lemma NonNegRealProduct(a: real, b: real)
    requires a >= 0.0 && b >= 0.0
    ensures a * b >= 0.0
  {
  }
}
