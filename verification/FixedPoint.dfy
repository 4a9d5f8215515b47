/** The fixed-point arithmetic of deepbook::math: nine decimals, rounding down. */
module FixedPoint {
  const FLOAT_SCALING: nat := 1_000_000_000

  function Mul(x: nat, y: nat): nat { x * y / FLOAT_SCALING }

  function Div(x: nat, y: nat): nat
    requires y > 0
  {
    x * FLOAT_SCALING / y
  }

  lemma DivBounds(x: nat, d: nat, q: nat)
    requires d > 0 && q == x / d
    ensures q * d <= x < (q + 1) * d
  {
  }

  lemma Scale(a: nat, b: nat, d: nat)
    ensures a <= b ==> a * d <= b * d
  {
  }

  lemma DivAtLeast(x: nat, d: nat, q: nat)
    requires d > 0 && q * d <= x
    ensures q <= x / d
  {
    DivBounds(x, d, x / d);
    Scale(x / d + 1, q, d);
  }

  lemma DivAtMost(x: nat, d: nat, q: nat)
    requires d > 0 && x < (q + 1) * d
    ensures x / d <= q
  {
    DivBounds(x, d, x / d);
    Scale(q + 1, x / d, d);
  }

  lemma MulBounds(x: nat, y: nat)
    ensures Mul(x, y) * FLOAT_SCALING <= x * y < (Mul(x, y) + 1) * FLOAT_SCALING
  {
    DivBounds(x * y, FLOAT_SCALING, Mul(x, y));
  }

  lemma MulAtMost(x: nat, y: nat, bound: nat)
    requires x * y < (bound + 1) * FLOAT_SCALING
    ensures Mul(x, y) <= bound
  {
    DivAtMost(x * y, FLOAT_SCALING, bound);
  }

  lemma MulMonotone(x: nat, x': nat, y: nat)
    requires x <= x'
    ensures Mul(x, y) <= Mul(x', y)
  {
    MulBounds(x', y);
    assert x * y <= x' * y;
    MulAtMost(x, y, Mul(x', y));
  }

  /** Splitting a quantity can only lower the sum of the rounded-down products. */
  lemma MulSuperadditive(x: nat, x': nat, y: nat)
    ensures Mul(x, y) + Mul(x', y) <= Mul(x + x', y)
  {
    MulBounds(x, y);
    MulBounds(x', y);
    assert (x + x') * y == x * y + x' * y;
    DivAtLeast((x + x') * y, FLOAT_SCALING, Mul(x, y) + Mul(x', y));
  }

  lemma MultipleModulo(k: nat, n: nat)
    requires n > 0
    ensures (k * n) % n == 0 && (k * n) / n == k
  {
    DivAtLeast(k * n, n, k);
    DivAtMost(k * n, n, k);
    assert k * n == (k * n) / n * n + (k * n) % n;
  }

  predicate Divides(d: nat, n: nat) { d > 0 && n % d == 0 }

  lemma DivisibilityChains(a: nat, b: nat, c: nat)
    requires Divides(b, a) && Divides(c, b)
    ensures Divides(c, a)
  {
    var m, n := a / b, b / c;
    assert a == m * b && b == n * c;
    assert a == (m * n) * c;
    MultipleModulo(m * n, c);
  }
}
