/** `Math.ceil` and `Math.round` applied to a quotient of integers, computed
    exactly on integers. */
module JsMath {

  /** `Math.ceil(a / d)` for a positive divisor: the least integer `q`
      with `a <= d * q`. Dafny's `/` rounds towards negative infinity when
      `d > 0`, so the ceiling is the negated floor of `-a / d`. */
  function CeilQuotient(a: int, d: int): (q: int)
    requires d > 0
    ensures d * (q - 1) < a <= d * q
  {
    var f := (-a) / d;
    assert -a == d * f + (-a) % d;
    assert d * (-f - 1) == -(d * f) - d;
    -f
  }

  /** `Math.round(n / d)` for `n >= 0` and `d > 0`: the nearest integer,
      halves rounded up. */
  function RoundQuotient(n: nat, d: nat): (r: nat)
    requires d > 0
    ensures d * (2 * r - 1) <= 2 * n < d * (2 * r + 1)
  {
    var q := (2 * n + d) / (2 * d);
    assert 2 * n + d == 2 * d * q + (2 * n + d) % (2 * d);
    assert d * (2 * q - 1) == 2 * d * q - d;
    assert d * (2 * q + 1) == 2 * d * q + d;
    q
  }

  /** Multiplying by a positive number can be cancelled in `<=`. */
  lemma CancelFactor(d: int, a: int, b: int)
    requires d > 0 && d * a <= d * b
    ensures a <= b
  {
    assert d * a - d * b == d * (a - b);
  }

  /** A ratio `n / d` of at most one is at most 100 percent. */
  lemma {:induction false} PercentAtMostHundred(n: nat, d: nat)
    requires 0 < d && n <= d
    ensures RoundQuotient(100 * n, d) <= 100
  {
    var r := RoundQuotient(100 * n, d);
    CancelFactor(d, 2 * (r as int) - 1, 200);
  }

  /** A ratio of exactly one is exactly 100 percent. */
  lemma {:induction false} PercentOfWhole(d: nat)
    requires 0 < d
    ensures RoundQuotient(100 * d, d) == 100
  {
    var r := RoundQuotient(100 * d, d);
    CancelFactor(d, 2 * (r as int) - 1, 200);
    CancelFactor(d, 200, 2 * r + 1);
  }
}
