/** Division and remainder, for the offset and index arithmetic of the other modules. */
module Arith {
  function Min(a: nat, b: nat): nat { if a < b then a else b }

  lemma MulAtLeast(d: int, n: int)
    requires d >= 1 && n >= 0
    ensures d * n >= n
  {
    assert d * n == n + (d - 1) * n;
  }

  lemma MulMonotone(a: int, b: int, n: int)
    requires a <= b && n >= 0
    ensures a * n <= b * n
  {
    assert b * n == a * n + (b - a) * n;
  }

  lemma MulLess(a: int, b: int, n: int)
    requires a * n < b * n && n >= 0
    ensures a < b
  {
    if a >= b {
      MulMonotone(b, a, n);
      assert false;
    }
  }

  lemma MulAssoc(a: int, b: int, c: int)
    ensures (a * b) * c == a * (b * c)
  {
  }

  lemma DivNonNegative(a: int, b: int)
    requires a >= 0 && b >= 1
    ensures a / b >= 0
  {
    var q := a / b;
    if q <= -1 {
      MulMonotone(q, -1, b);
      assert false;
    }
  }

  /** Quotient and remainder are the only ones that fit. */
  lemma DivModUnique(a: int, n: int, q: int, r: int)
    requires n > 0 && a == q * n + r && 0 <= r < n
    ensures a / n == q && a % n == r
  {
    var d := q - a / n;
    assert d * n == q * n - (a / n) * n;
    assert d * n == a % n - r;
    assert (-d) * n == -(d * n);
    if d >= 1 { MulAtLeast(d, n); assert false; }
    if d <= -1 { MulAtLeast(-d, n); assert false; }
  }

  lemma ModShift(q: int, r: int, n: int)
    requires n > 0
    ensures (q * n + r) % n == r % n
    ensures (q * n + r) / n == q + r / n
  {
    assert q * n + r == (q + r / n) * n + r % n by {
      assert (q + r / n) * n == q * n + (r / n) * n;
    }
    DivModUnique(q * n + r, n, q + r / n, r % n);
  }

  /** Dividing by a product is dividing by one factor after the other. */
  lemma DivDiv(x: nat, a: nat, b: nat)
    requires a >= 1 && b >= 1
    ensures b * a >= 1 && x / a / b == x / (b * a)
  {
    var q := x / a;
    Divided(x, a, b, q / b, q % b, x % a);
  }

  lemma Divided(x: nat, a: nat, b: nat, p: nat, s: nat, r: nat)
    requires a >= 1 && x == (p * b + s) * a + r && s < b && r < a
    ensures b * a >= 1 && x / (b * a) == p
  {
    MulAtLeast(b, a);
    Regroup(p, s, a, b);
    DivModUnique(x, b * a, p, s * a + r);
  }

  lemma Regroup(p: nat, s: nat, a: nat, b: nat)
    requires s < b
    ensures (p * b + s) * a == p * (b * a) + s * a && s * a + a <= b * a
  {
    MulAssoc(p, b, a);
    MulMonotone(s + 1, b, a);
  }
}
