/** Powers of two, and the bit test by which sizes are checked to be one. */
module PowersOfTwo {
  import opened Arith

  function Pow2(n: nat): (p: nat)
    ensures p > 0
  {
    if n == 0 then 1 else 2 * Pow2(n - 1)
  }

  /** Bitwise and of two numbers. */
  function And(a: nat, b: nat): nat {
    if a == 0 then 0 else (if a % 2 == 1 && b % 2 == 1 then 1 else 0) + 2 * And(a / 2, b / 2)
  }

  predicate IsPow2n(v: nat) { v != 0 && And(v, v - 1) == 0 }

  lemma {:induction false} AndSelf(a: nat)
    ensures And(a, a) == a
  {
    if a > 0 { AndSelf(a / 2); }
  }

  lemma {:induction false} Pow2Passes(n: nat)
    ensures IsPow2n(Pow2(n))
  {
    if n > 0 {
      Pow2Passes(n - 1);
      EvenStep(Pow2(n - 1));
    } else {
      assert And(1, 0) == 0;
    }
  }

  /** The exponent, counted as the number of halvings. */
  function Log2(v: nat): nat { if v <= 1 then 0 else 1 + Log2(v / 2) }

  lemma {:induction false} PassesIsPow2(v: nat)
    requires IsPow2n(v)
    ensures v == Pow2(Log2(v))
  {
    if v > 1 {
      var h := v / 2;
      if v == 2 * h {
        EvenStep(h);
        PassesIsPow2(h);
      } else {
        OddStep(h);
        assert false;
      }
    }
  }

  lemma EvenStep(h: nat)
    requires h >= 1
    ensures And(2 * h, 2 * h - 1) == 2 * And(h, h - 1)
  {
    assert (2 * h - 1) / 2 == h - 1 && 2 * h / 2 == h && 2 * h % 2 == 0;
  }

  lemma OddStep(h: nat)
    ensures And(2 * h + 1, 2 * h) == 2 * h
  {
    assert (2 * h + 1) / 2 == h && 2 * h / 2 == h && 2 * h % 2 == 0;
    AndSelf(h);
  }

  /** The bit test accepts the powers of two and nothing else. */
  lemma IsPow2nExact(v: nat)
    ensures IsPow2n(v) <==> exists n: nat :: v == Pow2(n)
  {
    if IsPow2n(v) { PassesIsPow2(v); }
    if n: nat :| v == Pow2(n) { Pow2Passes(n); }
  }

  lemma {:induction false} Pow2Add(a: nat, b: nat)
    ensures Pow2(a + b) == Pow2(a) * Pow2(b)
  {
    if a > 0 {
      Pow2Add(a - 1, b);
      MulAssoc(2, Pow2(a - 1), Pow2(b));
    }
  }

  lemma {:induction false} Pow2Monotone(a: nat, b: nat)
    requires a <= b
    ensures Pow2(a) <= Pow2(b)
    decreases b
  {
    if a < b { Pow2Monotone(a, b - 1); }
  }

  /** Of two powers of two the smaller divides the larger. */
  lemma SmallerDivides(a: nat, b: nat)
    requires IsPow2n(a) && IsPow2n(b) && a <= b
    ensures b == b / a * a && b / a >= 1
  {
    PassesIsPow2(a);
    PassesIsPow2(b);
    var m, n := Log2(a), Log2(b);
    if n < m {
      Pow2Monotone(n + 1, m);
      assert false;
    }
    Pow2Add(n - m, m);
    DivModUnique(b, a, Pow2(n - m), 0);
  }

  /** checkAndGetBits: the exponent of a power of two is its bit length less one. */
  lemma {:induction false} Log2OfPow2(n: nat)
    ensures Log2(Pow2(n)) == n
  {
    if n > 0 {
      Log2OfPow2(n - 1);
      assert Pow2(n) / 2 == Pow2(n - 1);
    }
  }
}
